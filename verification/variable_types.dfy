/** The back end's variable types (include/Backend/VariableTypes.h) and
    the helpers of src/Backend/VariableTypes.cpp that move between a type
    and its pointer, size a type, and sort it into the integer or the
    floating-point register file. */
module VariableTypes {

  datatype VariableType =
    | INT1 | INT1_PTR
    | INT8 | INT8_PTR
    | INT32 | INT32_PTR
    | INT64 | INT64_PTR
    | FLOAT | FLOAT_PTR
    | DOUBLE | DOUBLE_PTR
    | STRING | STRING_PTR
    | VOID | LABEL

  /** `__BYTE__`. */
  const BYTE: nat := 1

  /** `to_pointer`: the pointer to a value type; a pointer, `VOID` and
      `LABEL` are returned as they are. The result is a pointer exactly
      when the type is not `VOID` or `LABEL`, and dereferencing a fresh
      pointer gives the type back. */
  function ToPointer(t: VariableType): (r: VariableType)
    ensures IsPointer(r) <==> t != VOID && t != LABEL
    ensures !HasPointer(t) ==> r == t
    ensures HasPointer(t) ==> ToReference(r) == t
  {
    match t
    case INT1 => INT1_PTR
    case INT8 => INT8_PTR
    case INT32 => INT32_PTR
    case INT64 => INT64_PTR
    case FLOAT => FLOAT_PTR
    case DOUBLE => DOUBLE_PTR
    case STRING => STRING_PTR
    case _ => t
  }

  /** `to_reference`: the type a pointer points to, which has a pointer
      form; any other type is returned as it is. */
  function ToReference(t: VariableType): (r: VariableType)
    ensures IsPointer(t) ==> HasPointer(r)
    ensures !IsPointer(t) ==> r == t
  {
    match t
    case INT1_PTR => INT1
    case INT8_PTR => INT8
    case INT32_PTR => INT32
    case INT64_PTR => INT64
    case FLOAT_PTR => FLOAT
    case DOUBLE_PTR => DOUBLE
    case STRING_PTR => STRING
    case _ => t
  }

  /** `is_pointer`. */
  predicate IsPointer(t: VariableType)
  {
    t in {INT1_PTR, INT8_PTR, INT32_PTR, INT64_PTR, FLOAT_PTR, DOUBLE_PTR, STRING_PTR}
  }

  /** `is_int`: the types held in integer registers: every pointer and
      the integer value types, and never a floating-point type. */
  predicate IsInt(t: VariableType)
    ensures IsInt(t) <==> IsPointer(t) || t in {INT1, INT8, INT32, INT64}
    ensures IsInt(t) ==> !IsFloat(t)
  {
    t in {INT1, INT8, INT32, INT64, INT1_PTR, INT8_PTR, INT32_PTR, INT64_PTR,
          STRING_PTR, FLOAT_PTR, DOUBLE_PTR}
  }

  /** `is_float`: the types held in floating-point registers. */
  predicate IsFloat(t: VariableType)
  {
    t == FLOAT || t == DOUBLE
  }

  /** `type_to_size`: bytes a value of the type occupies. Every pointer
      takes 8 bytes; the only values that take 4 bytes are `INT32` and
      `FLOAT`, and the only one-byte values are `INT1` and `INT8`. */
  function TypeToSize(t: VariableType): (n: nat)
    ensures n in {1, 4, 8}
    ensures IsPointer(t) ==> n == 8
    ensures n == 4 <==> t == INT32 || t == FLOAT
    ensures n == 1 <==> t == INT1 || t == INT8
  {
    match t
    case INT1 => BYTE
    case INT8 => BYTE
    case INT32 => 4 * BYTE
    case FLOAT => 4 * BYTE
    case _ => 8 * BYTE
  }

  /** A type with a pointer form: every type that is neither a pointer nor
      `VOID` or `LABEL`. */
  predicate HasPointer(t: VariableType)
  {
    !IsPointer(t) && t != VOID && t != LABEL
  }

  /** Taking the pointer twice is taking it once: there is no pointer to a
      pointer. */
  lemma PointerIdempotent(t: VariableType)
    ensures ToPointer(ToPointer(t)) == ToPointer(t)
  {
  }

  /** Dereferencing a pointer and taking the pointer again gives the
      original pointer. */
  lemma ReferenceRoundTrip(t: VariableType)
    requires IsPointer(t)
    ensures ToPointer(ToReference(t)) == t
  {
  }

  /** `to_pointer` and `to_reference` are inverse bijections between the
      types with a pointer form and the pointer types. */
  lemma PointerBijection(a: VariableType, b: VariableType)
    requires HasPointer(a) && HasPointer(b)
    ensures ToPointer(a) == ToPointer(b) <==> a == b
  {
  }
}
