/**
 * The value model of the tuner (include/parameter.h): a `Value` wraps a
 * variant over int, double and string, and a `Parameter` is a plain
 * name / possible values / default record. Both are immutable.
 */
module Values {

  /** C++ `int`, taken as 32 bits, two's complement. */
  newtype int32 = x: int | -0x8000_0000 <= x < 0x8000_0000

  /**
   * `std::variant<int, double, std::string>`. A double is modelled as a
   * real number: NaN and the infinities are not part of the model.
   */
  datatype Variant = Int(i: int32) | Double(d: real) | Str(s: string)
  {
    /** `std::variant::index()`: the position of the active alternative. */
    function Index(): nat
    {
      match this
      case Int(_) => 0
      case Double(_) => 1
      case Str(_) => 2
    }

    /**
     * `operator==` of `std::variant`: the active alternatives must have the
     * same index, and then the payloads are compared with that alternative's
     * own `==`.
     */
    predicate Equals(other: Variant)
    {
      Index() == other.Index() &&
      match (this, other)
      case (Int(x), Int(y)) => x == y
      case (Double(x), Double(y)) => x == y
      case (Str(x), Str(y)) => x == y
      case _ => false
    }
  }

  /** An immutable value that can be of type int, double or string. */
  datatype Value = Value(held: Variant)
  {
    /** `Value::getValue`: the stored variant. */
    function GetValue(): Variant
    {
      held
    }

    /** `Value::operator==`: compares the two variants. */
    predicate Equals(other: Value)
    {
      held.Equals(other.held)
    }
  }

  /** `Value(int)`. */
  function FromInt(x: int32): Value
  {
    Value(Int(x))
  }

  /** `Value(double)`. */
  function FromDouble(x: real): Value
  {
    Value(Double(x))
  }

  /** `Value(const std::string&)`. */
  function FromString(s: string): Value
  {
    Value(Str(s))
  }

  /**
   * The characters `std::string(const char*)` copies out of the buffer a
   * C-string points at: everything before the first NUL character. The
   * buffer must hold a NUL (a pointer to an unterminated buffer is undefined
   * behaviour in C++).
   */
  function TerminatedPrefix(buffer: seq<char>): (s: string)
    requires '\0' in buffer
    ensures |s| < |buffer| && buffer[|s|] == '\0'
    ensures s == buffer[..|s|]
    ensures '\0' !in s
  {
    if buffer[0] == '\0' then [] else [buffer[0]] + TerminatedPrefix(buffer[1..])
  }

  /** `Value(const char*)`: converts the C-string to a `std::string` first. */
  function FromCString(buffer: seq<char>): Value
    requires '\0' in buffer
  {
    Value(Str(TerminatedPrefix(buffer)))
  }

  /**
   * Each constructor stores the matching alternative with its argument as
   * payload, and `getValue` hands that variant back unchanged.
   */
  lemma ConstructorsStoreMatchingAlternative(x: int32, y: real, s: string)
    ensures FromInt(x).GetValue().Index() == 0 && FromInt(x).GetValue() == Int(x)
    ensures FromDouble(y).GetValue().Index() == 1 && FromDouble(y).GetValue() == Double(y)
    ensures FromString(s).GetValue().Index() == 2 && FromString(s).GetValue() == Str(s)
  {
  }

  /**
   * A C-string whose characters before its terminator are `s` builds the
   * same value as `std::string(s)`, whatever follows the terminator.
   */
  lemma {:induction false} CStringMatchesString(s: string, rest: seq<char>)
    requires '\0' !in s
    ensures '\0' in s + ['\0'] + rest
    ensures FromCString(s + ['\0'] + rest) == FromString(s)
    ensures FromCString(s + ['\0'] + rest).Equals(FromString(s))
  {
    var buffer := s + ['\0'] + rest;
    assert buffer[|s|] == '\0';
    var t := TerminatedPrefix(buffer);
    assert forall i :: 0 <= i < |s| ==> buffer[i] == s[i] && buffer[i] != '\0';
    assert |t| == |s|;
    assert t == buffer[..|s|] == s;
  }

  /**
   * Value equality is exactly equality of the stored variant: same
   * alternative and same payload.
   */
  lemma EqualsIffSameVariant(a: Value, b: Value)
    ensures a.Equals(b) <==> a.GetValue() == b.GetValue()
    ensures a.Equals(b) <==> a == b
  {
  }

  /** Value equality is reflexive and symmetric. */
  lemma EqualsReflexiveSymmetric(a: Value, b: Value)
    ensures a.Equals(a)
    ensures a.Equals(b) ==> b.Equals(a)
  {
  }

  /** No coercion between alternatives: int 1, double 1.0 and string "1" are pairwise unequal. */
  lemma AlternativesNeverEqual(x: int32, y: real, s: string)
    ensures !FromInt(x).Equals(FromDouble(y)) && !FromDouble(y).Equals(FromInt(x))
    ensures !FromInt(x).Equals(FromString(s)) && !FromString(s).Equals(FromInt(x))
    ensures !FromDouble(y).Equals(FromString(s)) && !FromString(s).Equals(FromDouble(y))
    ensures !FromInt(1).Equals(FromDouble(1.0)) && !FromInt(1).Equals(FromString("1"))
  {
  }

  /** A tunable parameter: its name, its possible values and its default value. */
  datatype Parameter = Parameter(name: string, values: seq<Value>, defaultValue: Value)
  {
    /** `Parameter::getName`. */
    function GetName(): string
    {
      name
    }

    /** `Parameter::getValues`. */
    function GetValues(): seq<Value>
    {
      values
    }

    /** `Parameter::getDefaultValue`. */
    function GetDefaultValue(): Value
    {
      defaultValue
    }
  }

  /** The getters return exactly the constructor's arguments, order and duplicates of the values included. */
  lemma ParameterGettersReturnArguments(name: string, values: seq<Value>, defaultValue: Value)
    ensures Parameter(name, values, defaultValue).GetName() == name
    ensures Parameter(name, values, defaultValue).GetValues() == values
    ensures Parameter(name, values, defaultValue).GetDefaultValue() == defaultValue
  {
  }

  /**
   * The constructor validates nothing: an empty list of values is kept, and
   * a default that is not among the values is kept as the default.
   */
  lemma ParameterAcceptsAnyDomain(name: string, defaultValue: Value)
    ensures Parameter(name, [], defaultValue).GetValues() == []
    ensures Parameter(name, [], defaultValue).GetDefaultValue() == defaultValue
    ensures defaultValue !in Parameter(name, [], defaultValue).GetValues()
  {
  }
}
