// Field and method descriptors (section 4.3 of the Java Virtual Machine
// Specification) built from `java.lang.Class` values.
module Descriptors {
  import opened Wrappers

  /**
   * A `java.lang.Class`, as far as the creators look at it: its descriptor
   * string and the number of its type parameters. Two classes are the same
   * when both agree.
   */
  datatype JClass = JClass(descriptor: string, typeParams: nat)

  const ObjectClass := JClass("Ljava/lang/Object;", 0)

  /** fieldDescriptor: the class's own descriptor string. */
  function FieldDescriptor(c: JClass): (r: string)
    ensures r == c.descriptor
  {
    c.descriptor
  }

  /** What one array element adds to the descriptor: nothing for null. */
  function Contribution(p: Option<JClass>): string {
    match p
    case None => []
    case Some(c) => c.descriptor
  }

  /** The descriptors of the non-null parameter classes, in order. */
  function ParameterDescriptors(params: seq<Option<JClass>>): string
    decreases |params|
  {
    if params == [] then []
    else ParameterDescriptors(params[..|params| - 1]) + Contribution(params[|params| - 1])
  }

  /** The method descriptor: parameter descriptors in parentheses, then the return descriptor. */
  function MethodDescriptorOf(returnable: JClass, params: seq<Option<JClass>>): string {
    "(" + ParameterDescriptors(params) + ")" + returnable.descriptor
  }

  /**
   * methodDescriptor: a null parameter array fails in the loop; null
   * elements of the array are skipped.
   */
  method MethodDescriptor(returnable: JClass, descriptorInformation: Option<seq<Option<JClass>>>)
    returns (r: Result<string>)
    ensures descriptorInformation.None? ==> r == Err(NullPointer)
    ensures descriptorInformation.Some? ==> r == Ok(MethodDescriptorOf(returnable, descriptorInformation.value))
  {
    if descriptorInformation.None? {
      return Err(NullPointer);
    }
    var params := descriptorInformation.value;
    var descriptorBuilder := "(";
    var i := 0;
    while i < |params|
      invariant 0 <= i <= |params|
      invariant descriptorBuilder == "(" + ParameterDescriptors(params[..i])
    {
      assert params[..i + 1][..i] == params[..i];
      if params[i].Some? {
        descriptorBuilder := descriptorBuilder + params[i].value.descriptor;
      }
      i := i + 1;
    }
    assert params[..i] == params;
    descriptorBuilder := descriptorBuilder + ")" + returnable.descriptor;
    return Ok(descriptorBuilder);
  }

  /** emptyMethodDescriptor: the method descriptor for one null parameter. */
  method EmptyMethodDescriptor(returnable: JClass) returns (r: Result<string>)
    ensures r == Ok("()" + returnable.descriptor)
  {
    var nulls: seq<Option<JClass>> := [None];
    r := MethodDescriptor(returnable, Some(nulls));
    assert nulls[..0] == [];
    assert ParameterDescriptors(nulls) == [];
    assert "(" + [] + ")" + returnable.descriptor == "()" + returnable.descriptor;
  }

  /** The parameters with the nulls left out. */
  function Present(params: seq<Option<JClass>>): (cs: seq<JClass>)
    ensures |cs| <= |params|
    decreases |params|
  {
    if params == [] then []
    else Present(params[..|params| - 1]) + (if params[|params| - 1].Some? then [params[|params| - 1].value] else [])
  }

  /** The descriptors of a list of classes, one after another. */
  function Descriptors(cs: seq<JClass>): string
    decreases |cs|
  {
    if cs == [] then [] else Descriptors(cs[..|cs| - 1]) + cs[|cs| - 1].descriptor
  }

  lemma {:induction false} DescriptorsAppend(a: seq<JClass>, b: seq<JClass>)
    ensures Descriptors(a + b) == Descriptors(a) + Descriptors(b)
    decreases |b|
  {
    if b == [] {
      assert a + b == a;
    } else {
      var init := b[..|b| - 1];
      assert (a + b)[..|a + b| - 1] == a + init;
      DescriptorsAppend(a, init);
    }
  }

  /** Null parameters contribute nothing: the descriptor depends only on the present classes. */
  lemma {:induction false} ParametersArePresentOnes(params: seq<Option<JClass>>)
    ensures ParameterDescriptors(params) == Descriptors(Present(params))
    decreases |params|
  {
    if params != [] {
      var init := params[..|params| - 1];
      ParametersArePresentOnes(init);
      var p := Present(init);
      match params[|params| - 1]
      case None =>
        assert p + [] == p;
      case Some(c) =>
        assert (p + [c])[..|p + [c]| - 1] == p;
    }
  }

  lemma {:induction false} PresentAppend(a: seq<Option<JClass>>, b: seq<Option<JClass>>)
    ensures Present(a + b) == Present(a) + Present(b)
    decreases |b|
  {
    if b == [] {
      assert a + b == a;
    } else {
      assert (a + b)[..|a + b| - 1] == a + b[..|b| - 1];
      PresentAppend(a, b[..|b| - 1]);
    }
  }

  /** Inserting a null parameter anywhere leaves the method descriptor unchanged. */
  lemma NullParameterSkipped(returnable: JClass, a: seq<Option<JClass>>, b: seq<Option<JClass>>)
    ensures MethodDescriptorOf(returnable, a + [None] + b) == MethodDescriptorOf(returnable, a + b)
  {
    var nulls: seq<Option<JClass>> := [None];
    ParametersArePresentOnes(a + nulls + b);
    ParametersArePresentOnes(a + b);
    PresentAppend(a + nulls, b);
    PresentAppend(a, nulls);
    assert nulls[..0] == [];
    assert Present(nulls) == [];
    assert Present(a) + [] == Present(a);
    PresentAppend(a, b);
    assert Present(a + nulls + b) == Present(a + b);
  }

  /** With every parameter present, the descriptor lists them all in order. */
  lemma AllPresent(returnable: JClass, cs: seq<JClass>)
    ensures MethodDescriptorOf(returnable, Lift(cs)) == "(" + Descriptors(cs) + ")" + returnable.descriptor
  {
    ParametersArePresentOnes(Lift(cs));
    PresentLift(cs);
  }

  function Lift(cs: seq<JClass>): (params: seq<Option<JClass>>)
    ensures |params| == |cs| && forall i :: 0 <= i < |cs| ==> params[i] == Some(cs[i])
  {
    seq(|cs|, i requires 0 <= i < |cs| => Some(cs[i]))
  }

  lemma {:induction false} PresentLift(cs: seq<JClass>)
    ensures Present(Lift(cs)) == cs
    decreases |cs|
  {
    if cs != [] {
      var init := cs[..|cs| - 1];
      assert Lift(cs)[..|cs| - 1] == Lift(init);
      PresentLift(init);
      assert init + [cs[|cs| - 1]] == cs;
    }
  }
}
