// Access-flag tests over a JVM access word.
//
// An access word is a Java `int`; only bitwise `&` is applied to it, so it is
// modelled as a 32-bit bit-vector. The flag values are those of sections 4.1,
// 4.5, 4.6 and 4.7.25 of the Java Virtual Machine Specification; ACC_RECORD and
// ACC_DEPRECATED are pseudo-flags of the ASM library that sit above bit 15.
module AccessFlags {

  type Access = bv32

  const ACC_PUBLIC: Access := 0x0001
  const ACC_PRIVATE: Access := 0x0002
  const ACC_PROTECTED: Access := 0x0004
  const ACC_STATIC: Access := 0x0008
  const ACC_FINAL: Access := 0x0010
  const ACC_SUPER: Access := 0x0020
  const ACC_SYNCHRONIZED: Access := 0x0020
  const ACC_OPEN: Access := 0x0020
  const ACC_TRANSITIVE: Access := 0x0020
  const ACC_VOLATILE: Access := 0x0040
  const ACC_BRIDGE: Access := 0x0040
  const ACC_STATIC_PHASE: Access := 0x0040
  const ACC_VARARGS: Access := 0x0080
  const ACC_TRANSIENT: Access := 0x0080
  const ACC_NATIVE: Access := 0x0100
  const ACC_INTERFACE: Access := 0x0200
  const ACC_ABSTRACT: Access := 0x0400
  const ACC_STRICT: Access := 0x0800
  const ACC_SYNTHETIC: Access := 0x1000
  const ACC_ANNOTATION: Access := 0x2000
  const ACC_ENUM: Access := 0x4000
  const ACC_MANDATED: Access := 0x8000
  const ACC_RECORD: Access := 0x10000
  const ACC_DEPRECATED: Access := 0x20000

  /** The shared test behind every check: some bit of `flag` is set in `access`. */
  predicate IsFlagFound(access: Access, flag: Access) {
    access & flag != 0
  }

  // One check per flag. Each flag is a single bit, so "some bit of the flag
  // is set" is "the flag is set".

  predicate IsPrivatePresent(access: Access)
    ensures IsPrivatePresent(access) <==> access & ACC_PRIVATE == ACC_PRIVATE
  {
    IsFlagFound(access, ACC_PRIVATE)
  }
  predicate IsPublicPresent(access: Access)
    ensures IsPublicPresent(access) <==> access & ACC_PUBLIC == ACC_PUBLIC
  {
    IsFlagFound(access, ACC_PUBLIC)
  }
  predicate IsProtectedPresent(access: Access)
    ensures IsProtectedPresent(access) <==> access & ACC_PROTECTED == ACC_PROTECTED
  {
    IsFlagFound(access, ACC_PROTECTED)
  }
  predicate IsFinalPresent(access: Access)
    ensures IsFinalPresent(access) <==> access & ACC_FINAL == ACC_FINAL
  {
    IsFlagFound(access, ACC_FINAL)
  }
  predicate IsStaticPresent(access: Access)
    ensures IsStaticPresent(access) <==> access & ACC_STATIC == ACC_STATIC
  {
    IsFlagFound(access, ACC_STATIC)
  }
  predicate IsVolatilePresent(access: Access)
    ensures IsVolatilePresent(access) <==> access & ACC_VOLATILE == ACC_VOLATILE
  {
    IsFlagFound(access, ACC_VOLATILE)
  }
  predicate IsDeprecatedPresent(access: Access)
    ensures IsDeprecatedPresent(access) <==> access & ACC_DEPRECATED == ACC_DEPRECATED
  {
    IsFlagFound(access, ACC_DEPRECATED)
  }
  predicate IsNativePresent(access: Access)
    ensures IsNativePresent(access) <==> access & ACC_NATIVE == ACC_NATIVE
  {
    IsFlagFound(access, ACC_NATIVE)
  }
  predicate IsSynchronizedPresent(access: Access)
    ensures IsSynchronizedPresent(access) <==> access & ACC_SYNCHRONIZED == ACC_SYNCHRONIZED
  {
    IsFlagFound(access, ACC_SYNCHRONIZED)
  }
  predicate IsTransientPresent(access: Access)
    ensures IsTransientPresent(access) <==> access & ACC_TRANSIENT == ACC_TRANSIENT
  {
    IsFlagFound(access, ACC_TRANSIENT)
  }
  predicate IsVarargsPresent(access: Access)
    ensures IsVarargsPresent(access) <==> access & ACC_VARARGS == ACC_VARARGS
  {
    IsFlagFound(access, ACC_VARARGS)
  }
  predicate IsTransitivePresent(access: Access)
    ensures IsTransitivePresent(access) <==> access & ACC_TRANSITIVE == ACC_TRANSITIVE
  {
    IsFlagFound(access, ACC_TRANSITIVE)
  }
  predicate IsSyntheticPresent(access: Access)
    ensures IsSyntheticPresent(access) <==> access & ACC_SYNTHETIC == ACC_SYNTHETIC
  {
    IsFlagFound(access, ACC_SYNTHETIC)
  }
  predicate IsSuperPresent(access: Access)
    ensures IsSuperPresent(access) <==> access & ACC_SUPER == ACC_SUPER
  {
    IsFlagFound(access, ACC_SUPER)
  }
  predicate IsStrictPresent(access: Access)
    ensures IsStrictPresent(access) <==> access & ACC_STRICT == ACC_STRICT
  {
    IsFlagFound(access, ACC_STRICT)
  }
  predicate IsStaticPhasePresent(access: Access)
    ensures IsStaticPhasePresent(access) <==> access & ACC_STATIC_PHASE == ACC_STATIC_PHASE
  {
    IsFlagFound(access, ACC_STATIC_PHASE)
  }
  predicate IsMandatedPresent(access: Access)
    ensures IsMandatedPresent(access) <==> access & ACC_MANDATED == ACC_MANDATED
  {
    IsFlagFound(access, ACC_MANDATED)
  }
  predicate IsOpenPresent(access: Access)
    ensures IsOpenPresent(access) <==> access & ACC_OPEN == ACC_OPEN
  {
    IsFlagFound(access, ACC_OPEN)
  }
  predicate IsRecordPresent(access: Access)
    ensures IsRecordPresent(access) <==> access & ACC_RECORD == ACC_RECORD
  {
    IsFlagFound(access, ACC_RECORD)
  }
  predicate IsEnumPresent(access: Access)
    ensures IsEnumPresent(access) <==> access & ACC_ENUM == ACC_ENUM
  {
    IsFlagFound(access, ACC_ENUM)
  }
  predicate IsBridgePresent(access: Access)
    ensures IsBridgePresent(access) <==> access & ACC_BRIDGE == ACC_BRIDGE
  {
    IsFlagFound(access, ACC_BRIDGE)
  }
  predicate IsAbstractPresent(access: Access)
    ensures IsAbstractPresent(access) <==> access & ACC_ABSTRACT == ACC_ABSTRACT
  {
    IsFlagFound(access, ACC_ABSTRACT)
  }
  predicate IsInterfacePresent(access: Access)
    ensures IsInterfacePresent(access) <==> access & ACC_INTERFACE == ACC_INTERFACE
  {
    IsFlagFound(access, ACC_INTERFACE)
  }
  predicate IsAnnotationPresent(access: Access)
    ensures IsAnnotationPresent(access) <==> access & ACC_ANNOTATION == ACC_ANNOTATION
  {
    IsFlagFound(access, ACC_ANNOTATION)
  }

  /** The 24 checks; `Flag` gives the constant each one tests. */
  datatype Check =
    | Private | Public | Protected | Final | Static | Volatile | Deprecated | Native
    | Synchronized | Transient | Varargs | Transitive | Synthetic | Super | Strict | StaticPhase
    | Mandated | Open | Record | Enum | Bridge | Abstract | Interface | Annotation

  function Flag(c: Check): Access {
    match c
    case Private => ACC_PRIVATE
    case Public => ACC_PUBLIC
    case Protected => ACC_PROTECTED
    case Final => ACC_FINAL
    case Static => ACC_STATIC
    case Volatile => ACC_VOLATILE
    case Deprecated => ACC_DEPRECATED
    case Native => ACC_NATIVE
    case Synchronized => ACC_SYNCHRONIZED
    case Transient => ACC_TRANSIENT
    case Varargs => ACC_VARARGS
    case Transitive => ACC_TRANSITIVE
    case Synthetic => ACC_SYNTHETIC
    case Super => ACC_SUPER
    case Strict => ACC_STRICT
    case StaticPhase => ACC_STATIC_PHASE
    case Mandated => ACC_MANDATED
    case Open => ACC_OPEN
    case Record => ACC_RECORD
    case Enum => ACC_ENUM
    case Bridge => ACC_BRIDGE
    case Abstract => ACC_ABSTRACT
    case Interface => ACC_INTERFACE
    case Annotation => ACC_ANNOTATION
  }

  /** Dispatches a check to its named predicate. */
  predicate Present(c: Check, access: Access) {
    match c
    case Private => IsPrivatePresent(access)
    case Public => IsPublicPresent(access)
    case Protected => IsProtectedPresent(access)
    case Final => IsFinalPresent(access)
    case Static => IsStaticPresent(access)
    case Volatile => IsVolatilePresent(access)
    case Deprecated => IsDeprecatedPresent(access)
    case Native => IsNativePresent(access)
    case Synchronized => IsSynchronizedPresent(access)
    case Transient => IsTransientPresent(access)
    case Varargs => IsVarargsPresent(access)
    case Transitive => IsTransitivePresent(access)
    case Synthetic => IsSyntheticPresent(access)
    case Super => IsSuperPresent(access)
    case Strict => IsStrictPresent(access)
    case StaticPhase => IsStaticPhasePresent(access)
    case Mandated => IsMandatedPresent(access)
    case Open => IsOpenPresent(access)
    case Record => IsRecordPresent(access)
    case Enum => IsEnumPresent(access)
    case Bridge => IsBridgePresent(access)
    case Abstract => IsAbstractPresent(access)
    case Interface => IsInterfacePresent(access)
    case Annotation => IsAnnotationPresent(access)
  }

  /** Each named predicate tests its check's constant (one case per check). */
  lemma PresentUnfolds(c: Check, access: Access)
    ensures Present(c, access) == IsFlagFound(access, Flag(c))
  {
    match c {
      case Private =>
      case Public =>
      case Protected =>
      case Final =>
      case Static =>
      case Volatile =>
      case Deprecated =>
      case Native =>
      case Synchronized =>
      case Transient =>
      case Varargs =>
      case Transitive =>
      case Synthetic =>
      case Super =>
      case Strict =>
      case StaticPhase =>
      case Mandated =>
      case Open =>
      case Record =>
      case Enum =>
      case Bridge =>
      case Abstract =>
      case Interface =>
      case Annotation =>
    }
  }

  /** Every check's constant is a single bit. */
  lemma FlagIsSingleBit(c: Check)
    ensures Flag(c) != 0 && Flag(c) & (Flag(c) - 1) == 0
  {
  }

  /** For a single-bit constant, "some bit of it is set" is "it is set". */
  lemma SingleBitTest(x: Access, f: Access)
    requires f != 0 && f & (f - 1) == 0
    ensures x & f != 0 <==> x & f == f
  {
  }

  /** Every check is a test of its own single-bit constant: it holds
      exactly when that bit is set, so never for 0 and always for the
      constant itself. */
  lemma PresentIsBitTest(c: Check, access: Access)
    ensures Flag(c) != 0 && Flag(c) & (Flag(c) - 1) == 0
    ensures Present(c, access) <==> access & Flag(c) != 0
    ensures Present(c, access) <==> access & Flag(c) == Flag(c)
    ensures !Present(c, 0) && Present(c, Flag(c))
  {
    var f := Flag(c);
    FlagIsSingleBit(c);
    PresentUnfolds(c, access);
    PresentUnfolds(c, 0);
    PresentUnfolds(c, f);
    SingleBitTest(access, f);
    assert f & f == f;
  }

  /** A check looks at its own bit only, and adding bits never switches it off. */
  lemma PresentDependsOnOwnBit(c: Check, a: Access, b: Access)
    ensures Present(c, a) == Present(c, a & Flag(c))
    ensures a & Flag(c) == b & Flag(c) ==> Present(c, a) == Present(c, b)
    ensures Present(c, a) ==> Present(c, a | b)
  {
    var f := Flag(c);
    PresentIsBitTest(c, a);
    PresentIsBitTest(c, a & f);
    PresentIsBitTest(c, b);
    PresentIsBitTest(c, a | b);
    assert (a & f) & f == a & f;
    assert (a | b) & f == (a & f) | (b & f);
  }

  /** Checks whose constants coincide answer alike on every access word. */
  lemma SharedBitsAgree(a: Access)
    ensures IsSuperPresent(a) == IsSynchronizedPresent(a) == IsOpenPresent(a) == IsTransitivePresent(a)
    ensures IsVolatilePresent(a) == IsBridgePresent(a) == IsStaticPhasePresent(a)
    ensures IsTransientPresent(a) == IsVarargsPresent(a)
  {
  }

  /** Checks that test different constants are independent of each other. */
  lemma DistinctFlagsIndependent(c: Check, d: Check)
    requires Flag(c) != Flag(d)
    ensures Present(c, Flag(c)) && !Present(d, Flag(c))
  {
    PresentIsBitTest(c, Flag(c));
    PresentIsBitTest(d, Flag(c));
  }
}
