// Generic class signatures (section 4.7.9.1 of the Java Virtual Machine
// Specification) built from a base class and a list of type arguments.
module Signatures {
  import opened Wrappers
  import opened Text
  import opened Lists
  import opened Descriptors

  const ObjectDescriptor := ObjectClass.descriptor

  /** The length of the argument array; a null array has none. */
  function Size(genericTypes: Option<seq<JClass>>): nat {
    if genericTypes.None? then 0 else |genericTypes.value|
  }

  function Max(a: int, b: int): int {
    if a < b then b else a
  }

  /**
   * The class a supplied position `i` uses: the argument given there while it
   * is still in the list, otherwise the list entry at max(i - 1, 0), which is
   * an index error when the list is too short.
   */
  function Pick(genericTypes: seq<JClass>, i: nat, typesList: seq<JClass>): (r: Result<JClass>)
    requires i < |genericTypes|
    ensures r.Ok? ==> r.value in typesList
    ensures r.Err? <==> genericTypes[i] !in typesList && |typesList| <= Max(i - 1, 0)
    ensures r.Err? ==> r.error == IndexOutOfBounds
  {
    var given := genericTypes[i];
    if given in typesList then Ok(given)
    else if |typesList| <= Max(i - 1, 0) then Err(IndexOutOfBounds)
    else Ok(typesList[Max(i - 1, 0)])
  }

  /**
   * What is left of the list once a generic argument has been looked up: its
   * own `nested` arguments are cleared from the front, but only when at least
   * that many remain.
   */
  function Skip(remaining: seq<JClass>, nested: nat): (r: seq<JClass>)
    ensures |r| <= |remaining|
    ensures |remaining| >= nested ==> |r| == |remaining| - nested
  {
    if |remaining| > nested - 1 then remaining[nested..] else remaining
  }

  /** Fragments already built, in front of the outcome of the rest. */
  function Prepend(done: seq<string>, rest: Result<seq<string>>): Result<seq<string>> {
    match rest
    case Err(e) => Err(e)
    case Ok(fs) => Ok(done + fs)
  }

  /** The argument fragments, one per type parameter of `base` from `i` on. */
  function Fragments(base: JClass, genericTypes: Option<seq<JClass>>, i: nat, typesList: seq<JClass>)
    : Result<seq<string>>
    requires i <= base.typeParams && |typesList| <= Size(genericTypes)
    decreases Size(genericTypes), base.typeParams - i, 1
  {
    if i == base.typeParams then Ok([])
    else if genericTypes.Some? && |genericTypes.value| > i then
      match Pick(genericTypes.value, i, typesList)
      case Err(e) => Err(e)
      case Ok(current) => ArgumentFragments(base, genericTypes, i, current, RemoveFirst(typesList, current))
    else Prepend([ObjectDescriptor], Fragments(base, genericTypes, i + 1, typesList))
  }

  /**
   * The fragment of a supplied argument `current`, then those after it: a
   * generic argument is its descriptor without ';' followed by its own lookup
   * over what is left of the list.
   */
  function ArgumentFragments(base: JClass, genericTypes: Option<seq<JClass>>, i: nat, current: JClass,
                             remaining: seq<JClass>): Result<seq<string>>
    requires i < base.typeParams && |remaining| < Size(genericTypes)
    decreases Size(genericTypes), base.typeParams - i, 0
  {
    if current.typeParams > 0 then
      match LookUp(current, Some(remaining))
      case Err(e) => Err(e)
      case Ok(inner) =>
        Prepend([RemoveChar(current.descriptor, ';') + inner],
                Fragments(base, genericTypes, i + 1, Skip(remaining, current.typeParams)))
    else Prepend([current.descriptor], Fragments(base, genericTypes, i + 1, remaining))
  }

  /** genericLookUp: "<", a fragment per type parameter of `base`, then ">;". */
  function LookUp(base: JClass, genericTypes: Option<seq<JClass>>): Result<string>
    decreases Size(genericTypes), base.typeParams + 1, 1
  {
    var typesList := if genericTypes.None? then [] else genericTypes.value;
    match Fragments(base, genericTypes, 0, typesList)
    case Err(e) => Err(e)
    case Ok(fs) => Ok("<" + Concat(fs) + ">;")
  }

  /** createSignature: a null base fails; a base without type parameters is its descriptor. */
  function SignatureOf(type1: Option<JClass>, genericTypes: Option<seq<JClass>>): Result<string> {
    if type1.None? then Err(NullPointer)
    else if type1.value.typeParams == 0 then Ok(type1.value.descriptor)
    else
      match LookUp(type1.value, genericTypes)
      case Err(e) => Err(e)
      case Ok(s) => Ok(RemoveChar(type1.value.descriptor, ';') + s)
  }

  lemma PrependTwice(done: seq<string>, fragment: string, rest: Result<seq<string>>)
    ensures Prepend(done, Prepend([fragment], rest)) == Prepend(done + [fragment], rest)
  {
    match rest {
      case Err(_) =>
      case Ok(fs) => assert done + ([fragment] + fs) == (done + [fragment]) + fs;
    }
  }

  lemma BuilderStep(builder: string, done: seq<string>, fragment: string)
    requires builder == "<" + Concat(done)
    ensures builder + fragment == "<" + Concat(done + [fragment])
  {
    ConcatAppend(done, fragment);
  }

  lemma StepObject(base: JClass, genericTypes: Option<seq<JClass>>, i: nat, typesList: seq<JClass>)
    requires i < base.typeParams && |typesList| <= Size(genericTypes)
    requires !(genericTypes.Some? && |genericTypes.value| > i)
    ensures Fragments(base, genericTypes, i, typesList)
      == Prepend([ObjectDescriptor], Fragments(base, genericTypes, i + 1, typesList))
  {
  }

  lemma StepPicked(base: JClass, genericTypes: Option<seq<JClass>>, i: nat, typesList: seq<JClass>, current: JClass)
    requires i < base.typeParams && |typesList| <= Size(genericTypes)
    requires genericTypes.Some? && |genericTypes.value| > i
    requires Pick(genericTypes.value, i, typesList) == Ok(current)
    ensures |RemoveFirst(typesList, current)| < Size(genericTypes)
    ensures Fragments(base, genericTypes, i, typesList)
      == ArgumentFragments(base, genericTypes, i, current, RemoveFirst(typesList, current))
  {
  }

  lemma ArgumentNested(base: JClass, genericTypes: Option<seq<JClass>>, i: nat, current: JClass,
                       remaining: seq<JClass>, inner: string)
    requires i < base.typeParams && |remaining| < Size(genericTypes)
    requires current.typeParams > 0 && LookUp(current, Some(remaining)) == Ok(inner)
    ensures ArgumentFragments(base, genericTypes, i, current, remaining)
      == Prepend([RemoveChar(current.descriptor, ';') + inner],
                 Fragments(base, genericTypes, i + 1, Skip(remaining, current.typeParams)))
  {
  }

  lemma ArgumentNestedFails(base: JClass, genericTypes: Option<seq<JClass>>, i: nat, current: JClass,
                            remaining: seq<JClass>)
    requires i < base.typeParams && |remaining| < Size(genericTypes)
    requires current.typeParams > 0 && LookUp(current, Some(remaining)).Err?
    ensures ArgumentFragments(base, genericTypes, i, current, remaining) == Err(LookUp(current, Some(remaining)).error)
  {
  }

  lemma ArgumentPlain(base: JClass, genericTypes: Option<seq<JClass>>, i: nat, current: JClass,
                      remaining: seq<JClass>)
    requires i < base.typeParams && |remaining| < Size(genericTypes)
    requires current.typeParams == 0
    ensures ArgumentFragments(base, genericTypes, i, current, remaining)
      == Prepend([current.descriptor], Fragments(base, genericTypes, i + 1, remaining))
  {
  }

  lemma StepMissing(base: JClass, genericTypes: Option<seq<JClass>>, i: nat, typesList: seq<JClass>)
    requires i < base.typeParams && |typesList| <= Size(genericTypes)
    requires genericTypes.Some? && |genericTypes.value| > i
    requires Pick(genericTypes.value, i, typesList).Err?
    ensures Fragments(base, genericTypes, i, typesList) == Err(IndexOutOfBounds)
  {
  }

  /**
   * genericLookUp, as the loop over the type parameters that appends one
   * fragment per parameter to a builder.
   */
  method GenericLookUp(type1: JClass, genericTypes: Option<seq<JClass>>) returns (r: Result<string>)
    ensures r == LookUp(type1, genericTypes)
    decreases Size(genericTypes), type1.typeParams + 1
  {
    var signatureBuilder := "<";
    var typesList: seq<JClass> := if genericTypes.None? then [] else genericTypes.value;
    ghost var start := typesList;
    ghost var done: seq<string> := [];
    var numberOfGenericParams := type1.typeParams;
    var i := 0;
    match Fragments(type1, genericTypes, 0, start) {
      case Err(_) =>
      case Ok(fs) => assert done + fs == fs;
    }
    while i < numberOfGenericParams
      invariant 0 <= i <= numberOfGenericParams
      invariant |typesList| <= Size(genericTypes)
      invariant signatureBuilder == "<" + Concat(done)
      invariant Fragments(type1, genericTypes, 0, start) == Prepend(done, Fragments(type1, genericTypes, i, typesList))
    {
      var fragment, rest := NextFragment(type1, genericTypes, i, typesList);
      if fragment.Err? {
        return Err(fragment.error);
      }
      PrependTwice(done, fragment.value, Fragments(type1, genericTypes, i + 1, rest));
      BuilderStep(signatureBuilder, done, fragment.value);
      done := done + [fragment.value];
      signatureBuilder := signatureBuilder + fragment.value;
      typesList := rest;
      i := i + 1;
    }
    assert done + [] == done;
    return Ok(signatureBuilder + ">;");
  }

  /**
   * One pass of genericLookUp's loop: the fragment of parameter `i`, and the
   * list after the classes it used have been removed. A supplied generic
   * argument recurses into genericLookUp with what is left of the list.
   */
  method NextFragment(type1: JClass, genericTypes: Option<seq<JClass>>, i: nat, typesList: seq<JClass>)
    returns (fragment: Result<string>, rest: seq<JClass>)
    requires i < type1.typeParams && |typesList| <= Size(genericTypes)
    ensures |rest| <= Size(genericTypes)
    ensures fragment.Err? ==> Fragments(type1, genericTypes, i, typesList) == Err(fragment.error)
    ensures fragment.Ok? ==>
      Fragments(type1, genericTypes, i, typesList) == Prepend([fragment.value], Fragments(type1, genericTypes, i + 1, rest))
    decreases Size(genericTypes), 0
  {
    rest := typesList;
    if genericTypes.Some? && |genericTypes.value| > i {
      var currentClass := genericTypes.value[i];
      var nestedTypeParams := currentClass.typeParams;
      var classDescriptor := currentClass.descriptor;
      if currentClass !in rest {
        if |rest| <= Max(i - 1, 0) {
          StepMissing(type1, genericTypes, i, typesList);
          return Err(IndexOutOfBounds), rest;
        }
        currentClass := rest[Max(i - 1, 0)];
        classDescriptor := currentClass.descriptor;
        nestedTypeParams := currentClass.typeParams;
      }
      assert Pick(genericTypes.value, i, typesList) == Ok(currentClass);
      StepPicked(type1, genericTypes, i, typesList, currentClass);
      var text := if nestedTypeParams > 0 then RemoveChar(classDescriptor, ';') else classDescriptor;
      rest := RemoveFirst(rest, currentClass);
      ghost var remaining := rest;
      if nestedTypeParams > 0 {
        var inner := GenericLookUp(currentClass, Some(rest));
        if inner.Err? {
          ArgumentNestedFails(type1, genericTypes, i, currentClass, remaining);
          return Err(inner.error), rest;
        }
        ArgumentNested(type1, genericTypes, i, currentClass, remaining, inner.value);
        text := text + inner.value;
        if |rest| > nestedTypeParams - 1 {
          rest := rest[nestedTypeParams..];
        }
        assert rest == Skip(remaining, nestedTypeParams);
      } else {
        ArgumentPlain(type1, genericTypes, i, currentClass, remaining);
      }
      fragment := Ok(text);
    } else {
      StepObject(type1, genericTypes, i, typesList);
      fragment := Ok(ObjectDescriptor);
    }
  }

  /** createSignature, calling the loop above for a generic base. */
  method CreateSignature(type1: Option<JClass>, genericTypes: Option<seq<JClass>>) returns (r: Result<string>)
    ensures r == SignatureOf(type1, genericTypes)
    ensures type1.None? ==> r == Err(NullPointer)
    ensures type1.Some? && type1.value.typeParams == 0 ==> r == Ok(type1.value.descriptor)
  {
    if type1.None? {
      return Err(NullPointer);
    }
    var mainClassDescriptor := type1.value.descriptor;
    if type1.value.typeParams == 0 {
      return Ok(mainClassDescriptor);
    }
    var generics := GenericLookUp(type1.value, genericTypes);
    if generics.Err? {
      return Err(generics.error);
    }
    return Ok(RemoveChar(mainClassDescriptor, ';') + generics.value);
  }

  /** Putting one fragment in front keeps the shape, provided the front one is Object past the arguments. */
  lemma ShapeShift(r: Result<seq<string>>, rest: Result<seq<string>>, i: nat, size: nat)
    requires r.Ok? ==> rest.Ok? && |r.value| == |rest.value| + 1 && r.value[1..] == rest.value
    requires r.Ok? && i >= size ==> r.value[0] == ObjectDescriptor
    requires rest.Ok? ==> forall k :: 0 <= k < |rest.value| && i + 1 + k >= size ==> rest.value[k] == ObjectDescriptor
    ensures r.Ok? ==> forall k :: 0 <= k < |r.value| && i + k >= size ==> r.value[k] == ObjectDescriptor
  {
    if r.Ok? {
      forall k | 1 <= k < |r.value| && i + k >= size
        ensures r.value[k] == ObjectDescriptor
      {
        assert r.value[k] == rest.value[k - 1];
        assert i + 1 + (k - 1) == i + k;
      }
    }
  }

  /** A supplied argument contributes exactly one fragment in front of those after it. */
  lemma ArgumentShift(base: JClass, genericTypes: Option<seq<JClass>>, i: nat, current: JClass,
                      remaining: seq<JClass>)
    requires i < base.typeParams && |remaining| < Size(genericTypes)
    ensures var r := ArgumentFragments(base, genericTypes, i, current, remaining);
      var rest := Fragments(base, genericTypes, i + 1,
                            if current.typeParams > 0 then Skip(remaining, current.typeParams) else remaining);
      r.Ok? ==> rest.Ok? && |r.value| == |rest.value| + 1 && r.value[1..] == rest.value
  {
    if current.typeParams > 0 {
      var inner := LookUp(current, Some(remaining));
      if inner.Ok? {
        ArgumentNested(base, genericTypes, i, current, remaining, inner.value);
      } else {
        ArgumentNestedFails(base, genericTypes, i, current, remaining);
      }
    } else {
      ArgumentPlain(base, genericTypes, i, current, remaining);
    }
  }

  /**
   * One fragment per remaining type parameter, and Object wherever the
   * argument array has no entry.
   */
  lemma {:induction false} FragmentsShape(base: JClass, genericTypes: Option<seq<JClass>>, i: nat, typesList: seq<JClass>)
    requires i <= base.typeParams && |typesList| <= Size(genericTypes)
    ensures var r := Fragments(base, genericTypes, i, typesList);
      r.Ok? ==> |r.value| == base.typeParams - i
    ensures var r := Fragments(base, genericTypes, i, typesList);
      r.Ok? ==> forall k :: 0 <= k < |r.value| && i + k >= Size(genericTypes) ==> r.value[k] == ObjectDescriptor
    decreases base.typeParams - i, 1
  {
    if i < base.typeParams {
      if genericTypes.Some? && |genericTypes.value| > i {
        var picked := Pick(genericTypes.value, i, typesList);
        if picked.Ok? {
          PickedShape(base, genericTypes, i, typesList, picked.value);
        }
      } else {
        ObjectShape(base, genericTypes, i, typesList);
      }
    }
  }

  /** The shape when position `i` has a supplied argument. */
  lemma {:induction false} PickedShape(base: JClass, genericTypes: Option<seq<JClass>>, i: nat, typesList: seq<JClass>,
                                       current: JClass)
    requires i < base.typeParams && |typesList| <= Size(genericTypes)
    requires genericTypes.Some? && |genericTypes.value| > i
    requires Pick(genericTypes.value, i, typesList) == Ok(current)
    ensures var r := Fragments(base, genericTypes, i, typesList);
      r.Ok? ==> |r.value| == base.typeParams - i
    ensures var r := Fragments(base, genericTypes, i, typesList);
      r.Ok? ==> forall k :: 0 <= k < |r.value| && i + k >= Size(genericTypes) ==> r.value[k] == ObjectDescriptor
    decreases base.typeParams - i, 0
  {
    var remaining := RemoveFirst(typesList, current);
    StepPicked(base, genericTypes, i, typesList, current);
    var after := if current.typeParams > 0 then Skip(remaining, current.typeParams) else remaining;
    ArgumentShift(base, genericTypes, i, current, remaining);
    FragmentsShape(base, genericTypes, i + 1, after);
    ShapeShift(Fragments(base, genericTypes, i, typesList), Fragments(base, genericTypes, i + 1, after),
               i, Size(genericTypes));
  }

  /** The shape when position `i` has no argument and becomes Object. */
  lemma {:induction false} ObjectShape(base: JClass, genericTypes: Option<seq<JClass>>, i: nat, typesList: seq<JClass>)
    requires i < base.typeParams && |typesList| <= Size(genericTypes)
    requires !(genericTypes.Some? && |genericTypes.value| > i)
    ensures var r := Fragments(base, genericTypes, i, typesList);
      r.Ok? ==> |r.value| == base.typeParams - i
    ensures var r := Fragments(base, genericTypes, i, typesList);
      r.Ok? ==> forall k :: 0 <= k < |r.value| && i + k >= Size(genericTypes) ==> r.value[k] == ObjectDescriptor
    decreases base.typeParams - i, 0
  {
    StepObject(base, genericTypes, i, typesList);
    FragmentsShape(base, genericTypes, i + 1, typesList);
    ShapeShift(Fragments(base, genericTypes, i, typesList), Fragments(base, genericTypes, i + 1, typesList),
               i, Size(genericTypes));
  }

  /** The only failure of the lookup is the index error of a too-short list, at any depth. */
  lemma {:induction false} LookUpFailsOnlyOnIndex(base: JClass, genericTypes: Option<seq<JClass>>)
    ensures LookUp(base, genericTypes).Err? ==> LookUp(base, genericTypes).error == IndexOutOfBounds
    decreases Size(genericTypes), base.typeParams + 1, 1
  {
    FragmentsFailOnlyOnIndex(base, genericTypes, 0, if genericTypes.None? then [] else genericTypes.value);
  }

  lemma {:induction false} FragmentsFailOnlyOnIndex(base: JClass, genericTypes: Option<seq<JClass>>, i: nat,
                                                    typesList: seq<JClass>)
    requires i <= base.typeParams && |typesList| <= Size(genericTypes)
    ensures var r := Fragments(base, genericTypes, i, typesList);
      r.Err? ==> r.error == IndexOutOfBounds
    decreases Size(genericTypes), base.typeParams - i, 1
  {
    if i < base.typeParams {
      if genericTypes.Some? && |genericTypes.value| > i {
        var picked := Pick(genericTypes.value, i, typesList);
        if picked.Ok? {
          var current := picked.value;
          var remaining := RemoveFirst(typesList, current);
          StepPicked(base, genericTypes, i, typesList, current);
          if current.typeParams > 0 {
            LookUpFailsOnlyOnIndex(current, Some(remaining));
            FragmentsFailOnlyOnIndex(base, genericTypes, i + 1, Skip(remaining, current.typeParams));
          } else {
            FragmentsFailOnlyOnIndex(base, genericTypes, i + 1, remaining);
          }
        }
      } else {
        StepObject(base, genericTypes, i, typesList);
        FragmentsFailOnlyOnIndex(base, genericTypes, i + 1, typesList);
      }
    }
  }

  /** Without arguments the lookup never fails. */
  lemma {:induction false} NoArgumentsFrom(base: JClass, i: nat)
    requires i <= base.typeParams
    ensures Fragments(base, None, i, []).Ok?
    decreases base.typeParams - i
  {
    if i < base.typeParams {
      NoArgumentsFrom(base, i + 1);
    }
  }

  /** Reference definition: each parameter from `i` on takes the argument at its own position, Object past the end. */
  function PlainFrom(cs: seq<JClass>, n: nat, i: nat): seq<string>
    requires i <= n
  {
    seq(n - i, k requires 0 <= k < n - i => if i + k < |cs| then cs[i + k].descriptor else ObjectDescriptor)
  }

  function PlainFragments(cs: seq<JClass>, n: nat): seq<string> {
    PlainFrom(cs, n, 0)
  }

  lemma PlainFromStep(cs: seq<JClass>, n: nat, i: nat)
    requires i < n
    ensures PlainFrom(cs, n, i) == [if i < |cs| then cs[i].descriptor else ObjectDescriptor] + PlainFrom(cs, n, i + 1)
  {
    var head := if i < |cs| then cs[i].descriptor else ObjectDescriptor;
    var whole := PlainFrom(cs, n, i);
    var rest := PlainFrom(cs, n, i + 1);
    forall k | 1 <= k < |whole|
      ensures whole[k] == ([head] + rest)[k]
    {
      assert i + k == i + 1 + (k - 1);
    }
  }

  /** With non-generic arguments, the arguments from position `i` on are used in order. */
  lemma {:induction false} PlainFragmentsFrom(base: JClass, cs: seq<JClass>, i: nat, typesList: seq<JClass>)
    requires i <= base.typeParams
    requires forall c :: c in cs ==> c.typeParams == 0
    requires typesList == if i < |cs| then cs[i..] else []
    ensures Fragments(base, Some(cs), i, typesList) == Ok(PlainFrom(cs, base.typeParams, i))
    decreases base.typeParams - i
  {
    if i < base.typeParams {
      var next := if i + 1 < |cs| then cs[i + 1..] else [];
      PlainFragmentsFrom(base, cs, i + 1, next);
      PlainFromStep(cs, base.typeParams, i);
      if i < |cs| {
        RemoveHead(typesList);
        assert typesList[1..] == next;
        assert Pick(cs, i, typesList) == Ok(cs[i]);
        StepPicked(base, Some(cs), i, typesList, cs[i]);
      } else {
        StepObject(base, Some(cs), i, typesList);
      }
    }
  }

  /**
   * Non-generic arguments fill the parameters in order; missing ones are
   * Object and surplus ones are ignored. An empty argument array is a null one.
   */
  lemma PlainArguments(base: JClass, cs: seq<JClass>)
    requires forall c :: c in cs ==> c.typeParams == 0
    ensures LookUp(base, Some(cs)) == Ok("<" + Concat(PlainFragments(cs, base.typeParams)) + ">;")
  {
    assert (if 0 < |cs| then cs[0..] else []) == cs;
    PlainFragmentsFrom(base, cs, 0, cs);
  }

  /** A null argument array makes every parameter Object. */
  lemma NullArguments(base: JClass)
    ensures LookUp(base, None) == Ok("<" + Concat(PlainFragments([], base.typeParams)) + ">;")
  {
    NoArgumentsFrom(base, 0);
    FragmentsShape(base, None, 0, []);
    var fs := Fragments(base, None, 0, []).value;
    assert fs == PlainFragments([], base.typeParams);
  }

  /** Concatenating two fragments. */
  lemma ConcatTwo(a: string, b: string)
    ensures Concat([a, b]) == a + b
  {
    assert [a, b] == [a] + [b];
    ConcatAppend([a], b);
    assert [a] == [] + [a];
    ConcatAppend([], a);
  }

  /** A generic base: its descriptor without ';', then the lookup. */
  lemma GenericSignature(base: JClass, genericTypes: Option<seq<JClass>>, lookup: string, name: string)
    requires base.typeParams > 0 && LookUp(base, genericTypes) == Ok(lookup)
    requires base.descriptor == name + [';'] && ';' !in name
    ensures SignatureOf(Some(base), genericTypes) == Ok(name + lookup)
  {
    RemoveCharAbsent(name, ';');
  }

  /**
   * The documented example, for any base with two type parameters: HashMap
   * with String and Integer gives "Ljava/util/HashMap<Ljava/lang/String;Ljava/lang/Integer;>;".
   */
  lemma TwoPlainArguments(base: JClass, name: string, a: JClass, b: JClass)
    requires base.typeParams == 2 && base.descriptor == name + [';'] && ';' !in name
    requires a.typeParams == 0 && b.typeParams == 0
    ensures SignatureOf(Some(base), Some([a, b])) == Ok(name + "<" + a.descriptor + b.descriptor + ">;")
  {
    var cs := [a, b];
    PlainArguments(base, cs);
    assert PlainFragments(cs, 2) == [a.descriptor, b.descriptor];
    ConcatTwo(a.descriptor, b.descriptor);
    var lookup := "<" + a.descriptor + b.descriptor + ">;";
    assert "<" + (a.descriptor + b.descriptor) + ">;" == lookup;
    GenericSignature(base, Some(cs), lookup, name);
    assert name + lookup == name + "<" + a.descriptor + b.descriptor + ">;";
  }

  /**
   * The documented default: without arguments HashMap is
   * "Ljava/util/HashMap<Ljava/lang/Object;Ljava/lang/Object;>;".
   */
  lemma TwoParametersWithoutArguments(base: JClass, name: string)
    requires base.typeParams == 2 && base.descriptor == name + [';'] && ';' !in name
    ensures SignatureOf(Some(base), None) == Ok(name + "<" + ObjectDescriptor + ObjectDescriptor + ">;")
  {
    NullArguments(base);
    assert PlainFragments([], 2) == [ObjectDescriptor, ObjectDescriptor];
    ConcatTwo(ObjectDescriptor, ObjectDescriptor);
    var lookup := "<" + ObjectDescriptor + ObjectDescriptor + ">;";
    assert "<" + (ObjectDescriptor + ObjectDescriptor) + ">;" == lookup;
    GenericSignature(base, None, lookup, name);
    assert name + lookup == name + "<" + ObjectDescriptor + ObjectDescriptor + ">;";
  }

  /** A generic argument with one parameter of its own takes the next argument. */
  lemma OneParameterLookUp(n: JClass, a: JClass, rest: seq<JClass>)
    requires n.typeParams == 1 && a.typeParams == 0
    requires forall c :: c in rest ==> c.typeParams == 0
    ensures LookUp(n, Some([a] + rest)) == Ok("<" + a.descriptor + ">;")
  {
    PlainArguments(n, [a] + rest);
    var fs := PlainFragments([a] + rest, 1);
    assert fs[0] == ([a] + rest)[0].descriptor;
    assert fs == [a.descriptor];
    assert fs == [] + [a.descriptor];
    ConcatAppend([], a.descriptor);
    assert Concat(fs) == a.descriptor;
  }

  /**
   * Nested generics are written in prefix order: the arguments of a generic
   * argument follow it and are taken out of the list, so HashMap with List,
   * String and Integer gives HashMap<List<String>, Integer>.
   */
  lemma NestedArgument(base: JClass, n: JClass, a: JClass, b: JClass)
    requires base.typeParams == 2 && n.typeParams == 1
    requires a.typeParams == 0 && b.typeParams == 0
    ensures LookUp(base, Some([n, a, b]))
      == Ok("<" + Concat([RemoveChar(n.descriptor, ';') + ("<" + a.descriptor + ">;"), b.descriptor]) + ">;")
  {
    NestedHead(base, n, a, b);
    NestedTail(base, n, a, b);
    PrependPair(RemoveChar(n.descriptor, ';') + ("<" + a.descriptor + ">;"), b.descriptor);
  }

  lemma PrependPair(first: string, second: string)
    ensures Prepend([first], Ok([second])) == Ok([first, second])
  {
    assert [first] + [second] == [first, second];
  }

  lemma NestedHead(base: JClass, n: JClass, a: JClass, b: JClass)
    requires base.typeParams == 2 && n.typeParams == 1
    requires a.typeParams == 0 && b.typeParams == 0
    ensures Fragments(base, Some([n, a, b]), 0, [n, a, b])
      == Prepend([RemoveChar(n.descriptor, ';') + ("<" + a.descriptor + ">;")], Fragments(base, Some([n, a, b]), 1, [b]))
  {
    var gs := Some([n, a, b]);
    RemoveHead([n, a, b]);
    assert [n, a, b][1..] == [a, b] == [a] + [b];
    assert Pick(gs.value, 0, [n, a, b]) == Ok(n);
    StepPicked(base, gs, 0, [n, a, b], n);
    OneParameterLookUp(n, a, [b]);
    assert Skip([a, b], 1) == [b];
  }

  lemma NestedTail(base: JClass, n: JClass, a: JClass, b: JClass)
    requires base.typeParams == 2 && b.typeParams == 0
    ensures Fragments(base, Some([n, a, b]), 1, [b]) == Ok([b.descriptor])
  {
    var gs := Some([n, a, b]);
    assert Pick(gs.value, 1, [b]) == Ok(b);
    RemoveHead([b]);
    StepPicked(base, gs, 1, [b], b);
    assert Fragments(base, gs, 2, []) == Ok([]);
    assert [b.descriptor] + [] == [b.descriptor];
  }

  /**
   * A generic argument also takes the argument after it, so two arguments
   * where the first is generic leave nothing for the second parameter: the
   * lookup fails with an index error instead of using Object.
   */
  lemma NestedArgumentLeavesTooFew(base: JClass, n: JClass, a: JClass)
    requires base.typeParams == 2 && n.typeParams == 1 && a.typeParams == 0
    ensures LookUp(base, Some([n, a])) == Err(IndexOutOfBounds)
    ensures SignatureOf(Some(base), Some([n, a])) == Err(IndexOutOfBounds)
  {
    var gs := Some([n, a]);
    RemoveHead([n, a]);
    assert [n, a][1..] == [a] == [a] + [];
    assert Pick(gs.value, 0, [n, a]) == Ok(n);
    StepPicked(base, gs, 0, [n, a], n);
    OneParameterLookUp(n, a, []);
    assert Skip([a], 1) == [];
    StepMissing(base, gs, 1, []);
  }
}
