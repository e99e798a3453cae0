/** `org.omnimc.asm.file`: the entry holders a change callback returns. A
    holder keeps a fixed name and a replaceable payload, which may be null.
    Byte arrays are values here: two holders never share one array. */
module OmniFile {
  import opened Wrappers
  import opened Archive

  /** Java's `int` arithmetic wraps around modulo 2^32; `bv32` does too. */
  type JInt = bv32

  /** A Java `byte` widened to `int`: the byte is signed, so 0x80 to 0xFF
      become negative. */
  function SignExtend(b: bv8): (r: JInt)
    ensures b < 0x80 ==> r == b as JInt
    ensures b >= 0x80 ==> r == (b as JInt) | 0xFFFF_FF00
  {
    if b < 0x80 then b as JInt else (b as JInt) | 0xFFFF_FF00
  }

  /** One step of Java's hash folds: `31 * acc + x`, wrapping. */
  function Step(acc: JInt, x: JInt): JInt
  {
    31 * acc + x
  }

  /** A UTF-16 code unit, Java's `char`. */
  type Unit = x: int | 0 <= x < 0x1_0000

  /** A code unit widened to `int`, as `31 * h + s[i]` does. */
  function Widen(u: Unit): JInt
  {
    u as JInt
  }

  /** The UTF-16 code units Java stores for a character: the character
      itself in the basic plane, a high and a low surrogate above U+FFFF. */
  function Utf16(c: char): (units: seq<Unit>)
    ensures |units| == (if c as int < 0x1_0000 then 1 else 2)
    ensures |units| == 1 ==> units[0] == c as int
    ensures |units| == 2 ==> 0xD800 <= units[0] < 0xDC00 <= units[1] < 0xE000
  {
    var v := c as int;
    if v < 0x1_0000 then [v]
    else [0xD800 + (v - 0x1_0000) / 0x400, 0xDC00 + (v - 0x1_0000) % 0x400]
  }

  /** A surrogate pair decodes back to the character it encodes. */
  lemma Utf16Decodes(c: char)
    requires c as int >= 0x1_0000
    ensures 0x1_0000 + (Utf16(c)[0] as int - 0xD800) * 0x400 + (Utf16(c)[1] as int - 0xDC00) == c as int
  {
    var v := c as int - 0x1_0000;
    assert Utf16(c)[0] == 0xD800 + v / 0x400;
    assert Utf16(c)[1] == 0xDC00 + v % 0x400;
  }

  /** A string as the sequence of UTF-16 code units a Java `String` holds. */
  function Units(s: string): seq<Unit>
    decreases |s|
  {
    if s == [] then [] else Utf16(s[0]) + Units(s[1..])
  }

  lemma {:induction false} UnitsAppend(s: string, t: string)
    ensures Units(s + t) == Units(s) + Units(t)
    decreases |s|
  {
    if s == [] {
      assert s + t == t;
    } else {
      assert (s + t)[0] == s[0] && (s + t)[1..] == s[1..] + t;
      UnitsAppend(s[1..], t);
    }
  }

  /** The fold `31 * h + u` over code units, wrapping. */
  function FoldFrom(acc: JInt, us: seq<Unit>): JInt
    decreases |us|
  {
    if us == [] then acc else FoldFrom(Step(acc, Widen(us[0])), us[1..])
  }

  lemma {:induction false} FoldAppend(acc: JInt, us: seq<Unit>, vs: seq<Unit>)
    ensures FoldFrom(acc, us + vs) == FoldFrom(FoldFrom(acc, us), vs)
    decreases |us|
  {
    if us == [] {
      assert us + vs == vs;
    } else {
      assert (us + vs)[0] == us[0] && (us + vs)[1..] == us[1..] + vs;
      FoldAppend(Step(acc, Widen(us[0])), us[1..], vs);
    }
  }

  /** `String.hashCode`: `s[0]*31^(n-1) + ... + s[n-1]` over the UTF-16
      code units, wrapping, folded from the left. */
  function StringHash(s: string): JInt
  {
    StringHashFrom(0, s)
  }

  function StringHashFrom(acc: JInt, s: string): JInt
  {
    FoldFrom(acc, Units(s))
  }

  /** `Arrays.hashCode(byte[])`: 0 for null, else the same fold as a
      string over the sign-extended bytes, starting from 1. */
  function BytesHash(data: Option<Bytes>): JInt
  {
    if data.None? then 0 else BytesHashFrom(1, data.value)
  }

  function BytesHashFrom(acc: JInt, bs: Bytes): JInt
    decreases |bs|
  {
    if bs == [] then acc else BytesHashFrom(Step(acc, SignExtend(bs[0])), bs[1..])
  }

  /** `Objects.hash(a, b)` of two hash codes: `31 * (31 * 1 + a) + b`. */
  function Hash2(a: JInt, b: JInt): JInt
  {
    Step(Step(1, a), b)
  }

  class ClassFile {
    const name: string
    var data: Option<Bytes>

    constructor(name: string, data: Option<Bytes>)
      ensures this.name == name && this.data == data
    {
      this.name := name;
      this.data := data;
    }

    /** `getKey()`: the name given to the constructor, which is final. */
    function GetKey(): (r: string)
      ensures r == name
    {
      name
    }

    /** `getValue()`: the payload stored last. */
    function GetValue(): (r: Option<Bytes>)
      reads this
      ensures r == data
    {
      data
    }

    /** `setValue(value)`: store the new payload and return it. The
        `Map.Entry` contract asks for the previous payload; the source
        returns the new one, and so does the model. */
    method SetValue(value: Option<Bytes>) returns (r: Option<Bytes>)
      modifies this
      ensures data == value && r == value
    {
      data := value;
      r := data;
    }

    /** `equals(o)`: the same object, or another `ClassFile` with an equal
        name and element-wise equal bytes (two null payloads are equal). */
    predicate Equals(o: ClassFile?)
      reads this, o
    {
      if this == o then true
      else if o == null then false
      else name == o.GetKey() && data == o.GetValue()
    }

    /** `hashCode()`: `Objects.hash(name, Arrays.hashCode(data))`. */
    function HashCode(): JInt
      reads this
    {
      Hash2(StringHash(name), BytesHash(data))
    }
  }

  /** `equals` holds exactly when names and payloads agree. */
  lemma EqualsMeansSameContents(a: ClassFile, b: ClassFile?)
    ensures a.Equals(b) <==> b != null && a.name == b.name && a.data == b.data
  {
  }

  /** `equals` is reflexive, symmetric and transitive. */
  lemma EqualsIsEquivalence(a: ClassFile, b: ClassFile, c: ClassFile)
    ensures a.Equals(a)
    ensures a.Equals(b) <==> b.Equals(a)
    ensures a.Equals(b) && b.Equals(c) ==> a.Equals(c)
  {
  }

  /** Equal holders have equal hash codes. */
  lemma EqualsHashCode(a: ClassFile, b: ClassFile)
    requires a.Equals(b)
    ensures a.HashCode() == b.HashCode()
  {
  }

  /** The fold behind `String.hashCode` over `s + t` continues from the
      hash of `s`. */
  lemma StringHashAppend(acc: JInt, s: string, t: string)
    ensures StringHashFrom(acc, s + t) == StringHashFrom(StringHashFrom(acc, s), t)
  {
    UnitsAppend(s, t);
    FoldAppend(acc, Units(s), Units(t));
  }

  /** Appending one character multiplies the hash by 31 and adds it; a
      character above U+FFFF does so twice, once per surrogate. */
  lemma StringHashSnoc(s: string, c: char)
    ensures c as int < 0x1_0000 ==> StringHash(s + [c]) == Step(StringHash(s), Widen(c as int))
    ensures c as int >= 0x1_0000 ==>
      StringHash(s + [c]) == Step(Step(StringHash(s), Widen(Utf16(c)[0])), Widen(Utf16(c)[1]))
  {
    StringHashAppend(0, s, [c]);
    assert Units([c]) == Utf16(c) by {
      assert [c][1..] == [];
    }
    FoldUnits(StringHash(s), Utf16(c));
  }

  /** Folding one or two code units. */
  lemma FoldUnits(h: JInt, us: seq<Unit>)
    requires 1 <= |us| <= 2
    ensures |us| == 1 ==> FoldFrom(h, us) == Step(h, Widen(us[0]))
    ensures |us| == 2 ==> FoldFrom(h, us) == Step(Step(h, Widen(us[0])), Widen(us[1]))
  {
    var h1 := Step(h, Widen(us[0]));
    assert FoldFrom(h, us) == FoldFrom(h1, us[1..]);
    if |us| == 2 {
      assert us[1..][0] == us[1] && us[1..][1..] == [];
      assert FoldFrom(h1, us[1..]) == FoldFrom(Step(h1, Widen(us[1])), []);
    }
  }

  /** U+1F600 is hashed as its two surrogates 0xD83D and 0xDE00, as in Java:
      31 * 0xD83D + 0xDE00. */
  lemma SupplementaryHash()
    ensures Utf16('\U{1F600}') == [0xD83D, 0xDE00]
    ensures StringHash("\U{1F600}") == 0x1B0D63
  {
    var c := '\U{1F600}';
    assert c as int == 0x1F600;
    assert Utf16(c) == [0xD83D, 0xDE00];
    assert StringHash([]) == 0;
    StringHashSnoc([], c);
    assert [] + [c] == "\U{1F600}";
    assert Widen(0xD83D) == 0xD83D;
    assert Widen(0xDE00) == 0xDE00;
    assert Step(Step(0, 0xD83D), 0xDE00) == 0x1B0D63;
  }

  class ResourceFile {
    const key: string
    var value: Option<Bytes>

    constructor(key: string, value: Option<Bytes>)
      ensures this.key == key && this.value == value
    {
      this.key := key;
      this.value := value;
    }

    /** `getKey()`: the key given to the constructor, which is final. */
    function GetKey(): (r: string)
      ensures r == key
    {
      key
    }

    /** `getValue()`: the payload stored last. */
    function GetValue(): (r: Option<Bytes>)
      reads this
      ensures r == value
    {
      value
    }

    /** `setValue(value)`: store the new payload and return it. */
    method SetValue(v: Option<Bytes>) returns (r: Option<Bytes>)
      modifies this
      ensures value == v && r == v
    {
      value := v;
      r := v;
    }
  }
}
