/** `com.universal.asm.file`: the entry holders of the older API, without
    `equals` or `hashCode`. A holder keeps a fixed name and a replaceable
    payload, which may be null. */
module UniversalFile {
  import opened Wrappers
  import opened Archive

  class ClassFile {
    const name: string
    var data: Option<Bytes>

    constructor(name: string, data: Option<Bytes>)
      ensures this.name == name && this.data == data
    {
      this.name := name;
      this.data := data;
    }

    /** `getKey()`: the name given to the constructor, which is final. */
    function GetKey(): (r: string)
      ensures r == name
    {
      name
    }

    /** `getValue()`: the payload stored last. */
    function GetValue(): (r: Option<Bytes>)
      reads this
      ensures r == data
    {
      data
    }

    /** `setValue(value)`: store the new payload and return it, although
        its comment promises the previous one. */
    method SetValue(value: Option<Bytes>) returns (r: Option<Bytes>)
      modifies this
      ensures data == value && r == value
    {
      data := value;
      r := data;
    }
  }

  class ResourceFile {
    const key: string
    var value: Option<Bytes>

    constructor(key: string, value: Option<Bytes>)
      ensures this.key == key && this.value == value
    {
      this.key := key;
      this.value := value;
    }

    /** `getKey()`: the key given to the constructor, which is final. */
    function GetKey(): (r: string)
      ensures r == key
    {
      key
    }

    /** `getValue()`: the payload stored last. */
    function GetValue(): (r: Option<Bytes>)
      reads this
      ensures r == value
    {
      value
    }

    /** `setValue(value)`: store the new payload and return it. */
    method SetValue(v: Option<Bytes>) returns (r: Option<Bytes>)
      modifies this
      ensures value == v && r == v
    {
      value := v;
      r := v;
    }
  }
}
