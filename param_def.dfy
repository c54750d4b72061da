/** dnlib's ParamDef: a row of the Param metadata table (ECMA-335 Partition II section 22.33),
    with its attribute bits (section 23.1.13), its optional default constant and its name. */
module ParamDefs {
  import opened Wrappers

  /** C# ushort. */
  newtype u16 = x: int | 0 <= x < 0x1_0000

  /** ParamAttributes, a ushort flag set, and its single-bit flags. */
  type ParamAttributes = bv16
  const IN: ParamAttributes := 0x0001
  const OUT: ParamAttributes := 0x0002
  const OPTIONAL: ParamAttributes := 0x0010
  const HAS_DEFAULT: ParamAttributes := 0x1000
  const HAS_FIELD_MARSHAL: ParamAttributes := 0x2000

  /** The flags the ParamDef properties get and set. */
  predicate IsParamFlag(bit: ParamAttributes)
  {
    bit == IN || bit == OUT || bit == OPTIONAL || bit == HAS_DEFAULT || bit == HAS_FIELD_MARSHAL
  }

  /** A flag of exactly one bit. */
  predicate SingleBit(bit: ParamAttributes)
  {
    bit != 0 && bit & (bit - 1) == 0
  }

  /** The five ParamDef flags are distinct single bits. */
  lemma ParamFlagsAreSingleBits()
    ensures SingleBit(IN) && SingleBit(OUT) && SingleBit(OPTIONAL) && SingleBit(HAS_DEFAULT) && SingleBit(HAS_FIELD_MARSHAL)
    ensures forall b :: IsParamFlag(b) ==> SingleBit(b)
  {
  }

  /** The metadata tables a token can name (those this model needs). */
  datatype Table = Module | TypeRef | TypeDef | Field | Method | Param

  /** A table's number in the token's top byte. */
  function TableNumber(t: Table): (r: nat)
    ensures r < 0x100
  {
    match t
    case Module => 0x00
    case TypeRef => 0x01
    case TypeDef => 0x02
    case Field => 0x04
    case Method => 0x06
    case Param => 0x08
  }

  /** A metadata token: a table and a row id in it. */
  datatype MDToken = MDToken(table: Table, rid: nat)

  /** The 32-bit value of a token whose rid fits in 24 bits: the table in the top byte. */
  function Raw(t: MDToken): (r: nat)
    requires t.rid < 0x100_0000
    ensures r < 0x1_0000_0000
  {
    TableNumber(t.table) * 0x100_0000 + t.rid
  }

  /** The element types a Constant row can carry (ECMA-335 Partition II section 22.9), and End. */
  datatype ElementType = End | Boolean | Char | I1 | U1 | I2 | U2 | I4 | U4 | I8 | U8 | R4 | R8 | String | Class

  /** A default value: only its element type matters here. */
  datatype Constant = Constant(elementType: ElementType)

  /** The fixed tags of a Param in the coded indexes it can appear in. */
  const HAS_CONSTANT_TAG := 1
  const HAS_CUSTOM_ATTRIBUTE_TAG := 4
  const HAS_FIELD_MARSHAL_TAG := 1

  /** Whether the flag `bit` is set in `attributes`. */
  predicate HasFlag(attributes: ParamAttributes, bit: ParamAttributes)
  {
    attributes & bit != 0
  }

  /** `attributes` after a flag setter: `|= bit` for true, `&= ~bit` for false. */
  function WithFlag(attributes: ParamAttributes, bit: ParamAttributes, value: bool): ParamAttributes
  {
    if value then attributes | bit else attributes & !bit
  }

  /** Setting a flag to v reads back as v, and every other attribute bit is untouched. */
  lemma WithFlagSpec(attributes: ParamAttributes, bit: ParamAttributes, value: bool)
    requires SingleBit(bit)
    ensures HasFlag(WithFlag(attributes, bit, value), bit) == value
    ensures WithFlag(attributes, bit, value) & !bit == attributes & !bit
  {
  }

  /** A flag setter leaves the other four flags reading as before. */
  lemma WithFlagKeepsOthers(attributes: ParamAttributes, bit: ParamAttributes, other: ParamAttributes, value: bool)
    requires SingleBit(bit) && SingleBit(other) && other != bit
    ensures HasFlag(WithFlag(attributes, bit, value), other) == HasFlag(attributes, other)
  {
  }

  /** Setting a flag to the value it already has changes nothing. */
  lemma WithFlagIdempotent(attributes: ParamAttributes, bit: ParamAttributes)
    requires SingleBit(bit)
    ensures WithFlag(attributes, bit, HasFlag(attributes, bit)) == attributes
  {
    if attributes & bit != 0 {
      SetBitKept(attributes, bit);
    } else {
      ClearBitKept(attributes, bit);
    }
  }

  lemma SetBitKept(a: ParamAttributes, bit: ParamAttributes)
    requires SingleBit(bit) && a & bit != 0
    ensures a | bit == a
  {
  }

  lemma ClearBitKept(a: ParamAttributes, bit: ParamAttributes)
    requires a & bit == 0
    ensures a & !bit == a
  {
  }

  /** The decimal digits of `n`, as `string.Format("{0}", n)` writes them. */
  function Decimal(n: nat): (r: string)
    ensures |r| >= 1
    ensures forall i :: 0 <= i < |r| ==> '0' <= r[i] <= '9'
    decreases n
  {
    var d := [(n % 10 + '0' as int) as char];
    if n < 10 then d else Decimal(n / 10) + d
  }

  /** The number a string of decimal digits denotes. */
  function ParseDecimal(s: string): nat
    decreases |s|
  {
    if |s| == 0 then 0
    else ParseDecimal(s[..|s| - 1]) * 10 + (if '0' <= s[|s| - 1] <= '9' then s[|s| - 1] as int - '0' as int else 0)
  }

  /** Decimal is read back by ParseDecimal. */
  lemma {:induction false} DecimalRoundTrip(n: nat)
    ensures ParseDecimal(Decimal(n)) == n
    decreases n
  {
    var d := [(n % 10 + '0' as int) as char];
    if n >= 10 {
      DecimalRoundTrip(n / 10);
      var s := Decimal(n / 10) + d;
      assert s[..|s| - 1] == Decimal(n / 10);
    }
  }

  /** ParamDef.FullName: the name, or `A_` and the sequence number when the name is null or
      empty. */
  function FullName(name: Option<string>, sequence: u16): (r: string)
    ensures name.Some? && |name.value| > 0 ==> r == name.value
    ensures name.None? || |name.value| == 0 ==> |r| >= 2 && r[..2] == "A_" && ParseDecimal(r[2..]) == sequence as int
    ensures |r| > 0
  {
    if name.None? || |name.value| == 0 then
      DecimalRoundTrip(sequence as nat);
      var r := "A_" + Decimal(sequence as nat);
      assert r[2..] == Decimal(sequence as nat);
      r
    else name.value
  }

  /** Two unnamed parameters with different sequence numbers have different full names. */
  lemma UnnamedDistinct(s1: u16, s2: u16)
    requires s1 != s2
    ensures FullName(None, s1) != FullName(None, s2)
  {
  }

  /** ParamDef.ElementType: End without a constant, the constant's type otherwise. */
  function ElementTypeOf(constant: Option<Constant>): (r: ElementType)
    ensures constant.None? ==> r == End
    ensures constant.Some? ==> r == constant.value.elementType
  {
    if constant.None? then End else constant.value.elementType
  }

  /** ParamDef.HasConstant. A Constant row never has type End, so for such a constant the
      parameter has one exactly when its element type is not End. */
  function HasConstant(constant: Option<Constant>): (r: bool)
    ensures (constant.None? || constant.value.elementType != End) ==> (r <==> ElementTypeOf(constant) != End)
  {
    constant.Some?
  }

  /** A parameter created by the user (ParamDefUser); the declaring method, field marshal and
      custom attributes are not part of this model. */
  class ParamDefUser {
    var rid: nat
    var attributes: ParamAttributes
    var sequence: u16
    var name: Option<string>
    var constant: Option<Constant>

    /** ParamDefUser(): no name, sequence and flags 0. */
    constructor()
      ensures rid == 0 && name == None && sequence == 0 && attributes == 0 && constant == None
    {
      rid := 0;
      attributes := 0;
      sequence := 0;
      name := None;
      constant := None;
    }

    /** ParamDefUser(name): sequence and flags 0. */
    constructor Named(name: Option<string>)
      ensures rid == 0 && this.name == name && sequence == 0 && attributes == 0 && constant == None
    {
      this.rid := 0;
      this.attributes := 0;
      this.sequence := 0;
      this.name := name;
      this.constant := None;
    }

    /** ParamDefUser(name, sequence): flags 0. */
    constructor WithSequence(name: Option<string>, sequence: u16)
      ensures rid == 0 && this.name == name && this.sequence == sequence && attributes == 0 && constant == None
    {
      this.rid := 0;
      this.attributes := 0;
      this.sequence := sequence;
      this.name := name;
      this.constant := None;
    }

    /** ParamDefUser(name, sequence, flags). */
    constructor WithFlags(name: Option<string>, sequence: u16, flags: ParamAttributes)
      ensures rid == 0 && this.name == name && this.sequence == sequence && attributes == flags && constant == None
    {
      this.rid := 0;
      this.attributes := flags;
      this.sequence := sequence;
      this.name := name;
      this.constant := None;
    }

    /** MDToken: the Param table and this row's rid. */
    function Token(): (r: MDToken)
      reads this
      ensures r.table == Param && r.rid == rid
      ensures rid < 0x100_0000 ==> Raw(r) / 0x100_0000 == 0x08 && Raw(r) % 0x100_0000 == rid
    {
      MDToken(Param, rid)
    }

    /** The five flag getters, each stated as the bit position of section II.23.1.13 of ECMA-335
        that it reads: bits 0, 1, 4, 12 and 13. */
    function IsIn(): (r: bool)
      reads this
      ensures r <==> attributes & 1 == 1
    {
      HasFlag(attributes, IN)
    }

    function IsOut(): (r: bool)
      reads this
      ensures r <==> (attributes >> 1) & 1 == 1
    {
      HasFlag(attributes, OUT)
    }

    function IsOptional(): (r: bool)
      reads this
      ensures r <==> (attributes >> 4) & 1 == 1
    {
      HasFlag(attributes, OPTIONAL)
    }

    function HasDefault(): (r: bool)
      reads this
      ensures r <==> (attributes >> 12) & 1 == 1
    {
      HasFlag(attributes, HAS_DEFAULT)
    }

    function HasFieldMarshal(): (r: bool)
      reads this
      ensures r <==> (attributes >> 13) & 1 == 1
    {
      HasFlag(attributes, HAS_FIELD_MARSHAL)
    }

    /** The setter shared by the five flag properties. */
    method SetFlag(bit: ParamAttributes, value: bool)
      requires IsParamFlag(bit)
      modifies this
      ensures attributes == WithFlag(old(attributes), bit, value)
      ensures rid == old(rid) && sequence == old(sequence) && name == old(name) && constant == old(constant)
    {
      if value {
        attributes := attributes | bit;
      } else {
        attributes := attributes & !bit;
      }
    }

    method SetIsIn(value: bool)
      modifies this
      ensures attributes == WithFlag(old(attributes), IN, value) && IsIn() == value
      ensures IsOut() == old(IsOut()) && IsOptional() == old(IsOptional())
      ensures HasDefault() == old(HasDefault()) && HasFieldMarshal() == old(HasFieldMarshal())
      ensures rid == old(rid) && sequence == old(sequence) && name == old(name) && constant == old(constant)
    {
      ParamFlagsAreSingleBits();
      WithFlagKeepsOthers(attributes, IN, OUT, value);
      WithFlagKeepsOthers(attributes, IN, OPTIONAL, value);
      WithFlagKeepsOthers(attributes, IN, HAS_DEFAULT, value);
      WithFlagKeepsOthers(attributes, IN, HAS_FIELD_MARSHAL, value);
      WithFlagSpec(attributes, IN, value);
      SetFlag(IN, value);
    }

    method SetIsOut(value: bool)
      modifies this
      ensures attributes == WithFlag(old(attributes), OUT, value) && IsOut() == value
      ensures IsIn() == old(IsIn()) && IsOptional() == old(IsOptional())
      ensures HasDefault() == old(HasDefault()) && HasFieldMarshal() == old(HasFieldMarshal())
      ensures rid == old(rid) && sequence == old(sequence) && name == old(name) && constant == old(constant)
    {
      ParamFlagsAreSingleBits();
      WithFlagKeepsOthers(attributes, OUT, IN, value);
      WithFlagKeepsOthers(attributes, OUT, OPTIONAL, value);
      WithFlagKeepsOthers(attributes, OUT, HAS_DEFAULT, value);
      WithFlagKeepsOthers(attributes, OUT, HAS_FIELD_MARSHAL, value);
      WithFlagSpec(attributes, OUT, value);
      SetFlag(OUT, value);
    }

    method SetIsOptional(value: bool)
      modifies this
      ensures attributes == WithFlag(old(attributes), OPTIONAL, value) && IsOptional() == value
      ensures IsIn() == old(IsIn()) && IsOut() == old(IsOut())
      ensures HasDefault() == old(HasDefault()) && HasFieldMarshal() == old(HasFieldMarshal())
      ensures rid == old(rid) && sequence == old(sequence) && name == old(name) && constant == old(constant)
    {
      ParamFlagsAreSingleBits();
      WithFlagKeepsOthers(attributes, OPTIONAL, IN, value);
      WithFlagKeepsOthers(attributes, OPTIONAL, OUT, value);
      WithFlagKeepsOthers(attributes, OPTIONAL, HAS_DEFAULT, value);
      WithFlagKeepsOthers(attributes, OPTIONAL, HAS_FIELD_MARSHAL, value);
      WithFlagSpec(attributes, OPTIONAL, value);
      SetFlag(OPTIONAL, value);
    }

    method SetHasDefault(value: bool)
      modifies this
      ensures attributes == WithFlag(old(attributes), HAS_DEFAULT, value) && HasDefault() == value
      ensures IsIn() == old(IsIn()) && IsOut() == old(IsOut())
      ensures IsOptional() == old(IsOptional()) && HasFieldMarshal() == old(HasFieldMarshal())
      ensures rid == old(rid) && sequence == old(sequence) && name == old(name) && constant == old(constant)
    {
      ParamFlagsAreSingleBits();
      WithFlagKeepsOthers(attributes, HAS_DEFAULT, IN, value);
      WithFlagKeepsOthers(attributes, HAS_DEFAULT, OUT, value);
      WithFlagKeepsOthers(attributes, HAS_DEFAULT, OPTIONAL, value);
      WithFlagKeepsOthers(attributes, HAS_DEFAULT, HAS_FIELD_MARSHAL, value);
      WithFlagSpec(attributes, HAS_DEFAULT, value);
      SetFlag(HAS_DEFAULT, value);
    }

    method SetHasFieldMarshal(value: bool)
      modifies this
      ensures attributes == WithFlag(old(attributes), HAS_FIELD_MARSHAL, value) && HasFieldMarshal() == value
      ensures IsIn() == old(IsIn()) && IsOut() == old(IsOut())
      ensures IsOptional() == old(IsOptional()) && HasDefault() == old(HasDefault())
      ensures rid == old(rid) && sequence == old(sequence) && name == old(name) && constant == old(constant)
    {
      ParamFlagsAreSingleBits();
      WithFlagKeepsOthers(attributes, HAS_FIELD_MARSHAL, IN, value);
      WithFlagKeepsOthers(attributes, HAS_FIELD_MARSHAL, OUT, value);
      WithFlagKeepsOthers(attributes, HAS_FIELD_MARSHAL, OPTIONAL, value);
      WithFlagKeepsOthers(attributes, HAS_FIELD_MARSHAL, HAS_DEFAULT, value);
      WithFlagSpec(attributes, HAS_FIELD_MARSHAL, value);
      SetFlag(HAS_FIELD_MARSHAL, value);
    }
  }
}
