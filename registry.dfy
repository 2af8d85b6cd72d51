/** The fixed table of supported types (`adv_assert_types` and `enum Type`):
    each entry pairs the type's text, as written in an annotation, with the
    printf conversion that displays it. The position in the table is the
    enum value. */
module Registry {

  datatype Option<T> = None | Some(value: T)

  const INT: nat := 0
  const CHAR: nat := 1
  const DOUBLE: nat := 2
  const FLOAT: nat := 3
  const LONG_INT: nat := 4
  /** The pointer entry (the enum member for pointers). */
  const VOID_PTR: nat := 5

  /** The text every pointer annotation is rewritten to before the lookup. */
  const PointerName: string := "void *"

  const TypeNames: seq<string> := ["int", "char", "double", "float", "long int", PointerName]
  const Specifiers: seq<string> := ["%d", "%c", "%f", "%f", "%ld", "%p"]
  const NSupportedTypes: nat := 6

  /** Buffer sizes, each including the terminating '\0'. */
  const MaxVarNameLen: nat := 101
  const MaxTypeNameLen: nat := 51
  const MaxFormatLen: nat := MaxTypeNameLen + 10

  /** `strcmp(a, b) == 0`: the two texts agree character by character. */
  function SameText(a: string, b: string): bool {
    if a == [] || b == [] then a == [] && b == []
    else a[0] == b[0] && SameText(a[1..], b[1..])
  }

  lemma {:induction false} SameTextIsEquality(a: string, b: string)
    ensures SameText(a, b) <==> a == b
    decreases |a|
  {
    if a != [] && b != [] {
      SameTextIsEquality(a[1..], b[1..]);
      if a[0] == b[0] && a[1..] == b[1..] {
        assert a == [a[0]] + a[1..] && b == [b[0]] + b[1..];
      }
    }
  }

  /** The linear search `for (type_ind = from; ...) if (strcmp(...) == 0) break;`:
      the first table position at or after `from` holding `text`. */
  function LookupFrom(text: string, from: nat): (r: Option<nat>)
    requires from <= NSupportedTypes
    ensures r.Some? ==> from <= r.value < NSupportedTypes && TypeNames[r.value] == text
    decreases NSupportedTypes - from
  {
    if from == NSupportedTypes then None
    else if SameText(TypeNames[from], text) then SameTextIsEquality(TypeNames[from], text); Some(from)
    else LookupFrom(text, from + 1)
  }

  /** The search finds the first match, and finds nothing only when there is
      no match at or after `from`. */
  lemma {:induction false} LookupFromFirst(text: string, from: nat)
    requires from <= NSupportedTypes
    ensures LookupFrom(text, from).Some? ==> forall k | from <= k < LookupFrom(text, from).value :: TypeNames[k] != text
    ensures LookupFrom(text, from).None? <==> forall k | from <= k < NSupportedTypes :: TypeNames[k] != text
    decreases NSupportedTypes - from
  {
    if from < NSupportedTypes {
      SameTextIsEquality(TypeNames[from], text);
      if TypeNames[from] != text {
        LookupFromFirst(text, from + 1);
      }
    }
  }

  /** Exact, case-sensitive lookup of a type text in the whole table. */
  function Lookup(text: string): (r: Option<nat>)
    ensures r.Some? ==> r.value < NSupportedTypes && TypeNames[r.value] == text
  {
    LookupFrom(text, 0)
  }

  /** The lookup fails exactly for the texts that are not in the table. */
  lemma LookupMisses(text: string)
    ensures Lookup(text).None? <==> text !in TypeNames
  {
    LookupFromFirst(text, 0);
  }

  /** The table's texts are pairwise distinct, so a lookup finds each entry at
      its own position, which is the matching enum value. */
  lemma LookupFindsEnumValue(t: nat)
    requires t < NSupportedTypes
    ensures Lookup(TypeNames[t]) == Some(t)
  {
    LookupFromFirst(TypeNames[t], 0);
    var v := Lookup(TypeNames[t]).value;
    assert |TypeNames[v]| == |TypeNames[t]| && TypeNames[v][0] == TypeNames[t][0];
  }

  /** The printf format for a value of type `t`: "%s = " followed by the table's
      conversion; with its terminator it fits the MAX_FORMAT_LEN buffer it is
      assembled in. */
  function FormatFor(t: nat): (f: string)
    requires t < NSupportedTypes
    ensures 5 <= |f| && |f| + 1 <= MaxFormatLen
    ensures f[..5] == "%s = " && f[5..] == Specifiers[t]
  {
    "%s = " + Specifiers[t]
  }
}
