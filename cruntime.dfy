/** What the modelled C code takes from its runtime: `isspace` from <ctype.h>,
    `va_arg` from <stdarg.h> (over an explicit stream of tagged values instead of
    an untyped argument area), and the kinds of undefined behaviour the code can
    run into, which the model reports instead of continuing. */
module CRuntime {

  /** `isspace` in the "C" locale: space, \t, \n, \v, \f and \r. */
  predicate IsSpace(c: char) {
    c == ' ' || c == '\t' || c == '\n' || c == '\U{0B}' || c == '\U{0C}' || c == '\r'
  }

  /** Places where the C code has undefined behaviour; the model stops there. */
  datatype Hazard =
    | ReadPastEnd         // the type copy loop reads beyond the string's terminator
    | EmptyTypeUnderflow  // `()`: the unsigned buffer index is decremented from 0
    | TypeSlotOverflow    // a type index is written beyond the type array
    | StreamExhausted     // va_arg with no argument left
    | KindMismatch        // va_arg of a type the passed argument does not have
    | TableOverrun        // a type table is indexed past its last entry
    | SignedOverflow      // an `int` computation leaves the 32-bit range

  /** One argument as it travels through `...`, after the default promotions
      (char and short become int, float becomes double). */
  datatype Value =
    | Int(i: int)
    | Double(d: real)
    | Str(text: string)
    | Long(l: int)
    | Ptr(address: nat)

  /** How a value is fetched: the type named in `va_arg`, plus the cast applied to it. */
  datatype ReadRule =
    | AsInt          // va_arg(ap, int)
    | AsCharFromInt  // (char) va_arg(ap, int)
    | AsDouble       // va_arg(ap, double)
    | AsString       // va_arg(ap, char *)
    | AsLong         // va_arg(ap, long int)
    | AsPointer      // va_arg(ap, void *)

  /** The argument has a type that `va_arg` may read as the type `rule` asks
      for: the same type, or, as section 7.16.1.1 paragraph 2 of the C11
      standard allows, a pointer to void read as a pointer to char or the
      other way round. */
  predicate Fits(rule: ReadRule, v: Value) {
    match rule
    case AsInt => v.Int?
    case AsCharFromInt => v.Int?
    case AsDouble => v.Double?
    case AsString => v.Str? || v.Ptr?
    case AsLong => v.Long?
    case AsPointer => v.Ptr? || v.Str?
  }

  /** Conversion of an int to a (signed, 8-bit) char: the value congruent to
      `i` modulo 256 in [-128, 127]. */
  function Narrow(i: int): (c: int)
    ensures -128 <= c < 128
    ensures (c - i) % 256 == 0
    ensures -128 <= i < 128 ==> c == i
  {
    (i + 128) % 256 - 128
  }

  /** The value `va_arg` delivers for an argument that fits `rule`. */
  function Cast(rule: ReadRule, v: Value): Value {
    if rule == AsCharFromInt && v.Int? then Int(Narrow(v.i)) else v
  }

  datatype Fetch = Fetched(v: Value) | Broken(h: Hazard)

  const IntMin: int := -0x8000_0000
  const IntMax: int := 0x7FFF_FFFF

  predicate IsInt32(x: int) {
    IntMin <= x <= IntMax
  }

  /** `va_arg` at stream position `k`, with the cast of `rule` applied. */
  function VaArg(rule: ReadRule, args: seq<Value>, k: nat): (f: Fetch)
    ensures f.Fetched? <==> k < |args| && Fits(rule, args[k])
    ensures f == Broken(StreamExhausted) <==> k >= |args|
    ensures f.Fetched? ==> f.v == Cast(rule, args[k])
    ensures f.Fetched? && rule != AsCharFromInt ==> f.v == args[k]
    ensures f.Fetched? && rule == AsCharFromInt ==> f.v == Int(Narrow(args[k].i))
  {
    if k >= |args| then Broken(StreamExhausted)
    else if !Fits(rule, args[k]) then Broken(KindMismatch)
    else Fetched(Cast(rule, args[k]))
  }
}
