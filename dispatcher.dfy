/** `advassert_` of src/advassert.cpp: after the assertion header it parses the
    stringified variable list into a zeroed name table and type array, then
    prints one line per slot, reading that slot's value from the variadic
    arguments with the read rule of the slot's type. The arguments are an
    explicit sequence of values; what the function prints is a list of
    (name, format, value) lines. */
module Dispatcher {
  import opened CRuntime
  import opened Registry
  import opened Parser
  import opened ParserProps

  /** One line printed for a slot: `fprintf(stderr, format, name, value)`. */
  datatype Line = Line(name: string, format: string, value: Value)

  /** How a call of `advassert_` ends. */
  datatype Report =
    | NoVariables                                // nVars == 0: notice, then abort
    | ParseFailed(vars: string)                  // parse_vars returned 0: the raw list is printed
    | ParseUndefined(hazard: Hazard)             // parse_vars ran into undefined behaviour
    | Printed(lines: seq<Line>, stopped: Option<Hazard>)  // one line per slot, unless stopped early

  /** The slot loop's result: the lines printed, the stream position reached,
      and the undefined behaviour that ended the loop early, if any. */
  datatype Printing = Printing(lines: seq<Line>, used: nat, stopped: Option<Hazard>)

  /** The `va_arg` each `case` of the switch performs: the read whose value
      the type's table specifier displays. */
  function RuleFor(t: nat): (r: ReadRule)
    requires t < NSupportedTypes
    ensures ConversionFor(Specifiers[t], r)
    ensures r != AsString
  {
    if t == INT then AsInt
    else if t == CHAR then AsCharFromInt
    else if t == DOUBLE || t == FLOAT then AsDouble
    else if t == LONG_INT then AsLong
    else AsPointer
  }

  /** The printf conversion that displays the value `rule` fetches. */
  predicate ConversionFor(spec: string, rule: ReadRule) {
    || (spec == "%d" && rule == AsInt)
    || (spec == "%c" && rule == AsCharFromInt)
    || (spec == "%f" && rule == AsDouble)
    || (spec == "%ld" && rule == AsLong)
    || (spec == "%p" && rule == AsPointer)
  }

  /** `sizeof(AdvAssertType)`: two pointers on LP64. */
  const TableEntryBytes: nat := 16
  /** `sizeof(unsigned int)`. */
  const UIntBytes: nat := 4

  /** `calloc(nVars, sizeof(AdvAssertType))` viewed as unsigned ints: the
      number of type entries the allocated bytes hold. */
  function TypeSlots(nVars: nat): (k: nat)
    ensures k * UIntBytes == nVars * TableEntryBytes
    ensures nVars <= k
  {
    (TableEntryBytes / UIntBytes) * nVars
  }

  function ZeroTypes(k: nat): (z: seq<nat>)
    ensures |z| == k && forall i | 0 <= i < k :: z[i] == 0
  {
    seq(k, _ => 0)
  }

  /** The slot loop from slot `i` on, with the argument stream at position `k`.
      `adv_assert_types[parsed_types[i]]` is read for the format before the
      switch, so an index past the table stops the loop there. */
  function Print(rows: seq<seq<char>>, types: seq<nat>, args: seq<Value>, i: nat, k: nat): (p: Printing)
    requires i <= |rows| <= |types|
    ensures k <= p.used && p.used - k <= |rows| - i
    ensures |p.lines| == p.used - k
    ensures p.stopped.None? ==> p.used - k == |rows| - i
    decreases |rows| - i
  {
    if i == |rows| then Printing([], k, None)
    else if types[i] >= NSupportedTypes then Printing([], k, Some(TableOverrun))
    else match VaArg(RuleFor(types[i]), args, k)
      case Broken(h) => Printing([], k, Some(h))
      case Fetched(v) =>
        var p := Print(rows, types, args, i + 1, k + 1);
        p.(lines := [Line(CStr(rows[i]), FormatFor(types[i]), v)] + p.lines)
  }

  /** What a call prints and how many variadic values it reads. */
  function Dispatch(vars: string, nVars: nat, args: seq<Value>): (r: (Report, nat))
    ensures r.0.NoVariables? <==> nVars == 0
    ensures !r.0.Printed? ==> r.1 == 0
    ensures r.0.Printed? ==> r.1 <= nVars && |r.0.lines| == r.1
    ensures r.0.ParseFailed? ==> r.0.vars == vars
  {
    if nVars == 0 then (NoVariables, 0)
    else
      var parsed := ParseSpec(vars, nVars, ZeroTable(nVars), ZeroTypes(TypeSlots(nVars)));
      match parsed.0
      case Fail => (ParseFailed(vars), 0)
      case Undefined(h) => (ParseUndefined(h), 0)
      case Ok =>
        var p := Print(parsed.1, parsed.2, args, 0, 0);
        (Printed(p.lines, p.stopped), p.used)
  }

  /** With known types from slot `i` on, the loop reads one value per slot, in
      slot order, printing each with its name and format; it stops at the first
      value that is missing or of the wrong kind. */
  lemma PrintReads(rows: seq<seq<char>>, types: seq<nat>, args: seq<Value>, i: nat)
    requires i <= |rows| <= |types|
    requires forall j | i <= j < |rows| :: types[j] < NSupportedTypes
    ensures var p := Print(rows, types, args, i, i);
      && (forall j | i <= j < p.used :: j < |args| && Fits(RuleFor(types[j]), args[j]))
      && (forall j | i <= j < p.used ::
            p.lines[j - i] == Line(CStr(rows[j]), FormatFor(types[j]), Cast(RuleFor(types[j]), args[j])))
      && (p.stopped.None? <==> p.used == |rows|)
      && (p.stopped.Some? ==> !(p.used < |args| && Fits(RuleFor(types[p.used]), args[p.used])))
      && (p.stopped.Some? ==> p.stopped.value == if p.used < |args| then KindMismatch else StreamExhausted)
  {
    PrintFits(rows, types, args, i);
    PrintLines(rows, types, args, i);
    PrintStops(rows, types, args, i);
  }

  lemma {:induction false} PrintFits(rows: seq<seq<char>>, types: seq<nat>, args: seq<Value>, i: nat)
    requires i <= |rows| <= |types|
    requires forall j | i <= j < |rows| :: types[j] < NSupportedTypes
    ensures forall j | i <= j < Print(rows, types, args, i, i).used :: j < |args| && Fits(RuleFor(types[j]), args[j])
    decreases |rows| - i
  {
    if i < |rows| && VaArg(RuleFor(types[i]), args, i).Fetched? {
      PrintFits(rows, types, args, i + 1);
    }
  }

  lemma {:induction false} PrintLines(rows: seq<seq<char>>, types: seq<nat>, args: seq<Value>, i: nat)
    requires i <= |rows| <= |types|
    requires forall j | i <= j < |rows| :: types[j] < NSupportedTypes
    ensures var p := Print(rows, types, args, i, i);
      forall j | i <= j < p.used ::
        j < |args| && p.lines[j - i] == Line(CStr(rows[j]), FormatFor(types[j]), Cast(RuleFor(types[j]), args[j]))
    decreases |rows| - i
  {
    if i < |rows| && VaArg(RuleFor(types[i]), args, i).Fetched? {
      PrintLines(rows, types, args, i + 1);
    }
  }

  lemma {:induction false} PrintStops(rows: seq<seq<char>>, types: seq<nat>, args: seq<Value>, i: nat)
    requires i <= |rows| <= |types|
    requires forall j | i <= j < |rows| :: types[j] < NSupportedTypes
    ensures var p := Print(rows, types, args, i, i);
      && (p.stopped.None? <==> p.used == |rows|)
      && (p.stopped.Some? ==> !(p.used < |args| && Fits(RuleFor(types[p.used]), args[p.used])))
      && (p.stopped.Some? ==> p.stopped.value == if p.used < |args| then KindMismatch else StreamExhausted)
    decreases |rows| - i
  {
    if i < |rows| && VaArg(RuleFor(types[i]), args, i).Fetched? {
      PrintStops(rows, types, args, i + 1);
    }
  }

  /** Inv at the start of a scan over a zeroed table. */
  lemma StartInv(s: string, n: nat, types: seq<nat>)
    requires '\0' !in s
    ensures Inv(n, Start(s, ZeroTable(n), types))
  {
  }

  /** Every entry of the zeroed type array is a table index once the parse is
      over: entries below the type cursor were resolved by the lookup, the
      others are still zero (INT). */
  lemma ParsedTypesKnown(s: string, n: nat, m: nat)
    requires '\0' !in s
    ensures forall k | 0 <= k < m :: ParseSpec(s, n, ZeroTable(n), ZeroTypes(m)).2[k] < NSupportedTypes
  {
    var st := Start(s, ZeroTable(n), ZeroTypes(m));
    StartInv(s, n, ZeroTypes(m));
    ScanKeepsInv(n, st);
    ScanKeeps(n, st);
  }

  /** A successful parse: exactly the first `used` values are read, one per
      slot in slot order, each line carrying the slot's stored name and the
      format of its type; reading stops early only at a missing or mistyped
      value (`DispatchStops` says which). */
  lemma DispatchReads(vars: string, nVars: nat, args: seq<Value>)
    requires '\0' !in vars && nVars > 0
    requires ParseSpec(vars, nVars, ZeroTable(nVars), ZeroTypes(TypeSlots(nVars))).0 == Ok
    ensures var parsed := ParseSpec(vars, nVars, ZeroTable(nVars), ZeroTypes(TypeSlots(nVars)));
      var r := Dispatch(vars, nVars, args);
      && r.0.Printed?
      && (forall j | 0 <= j < r.1 ::
            && parsed.2[j] < NSupportedTypes && j < |args| && Fits(RuleFor(parsed.2[j]), args[j])
            && r.0.lines[j] == Line(CStr(parsed.1[j]), FormatFor(parsed.2[j]), Cast(RuleFor(parsed.2[j]), args[j])))
      && (r.0.stopped.None? <==> r.1 == nVars)
  {
    var parsed := ParseSpec(vars, nVars, ZeroTable(nVars), ZeroTypes(TypeSlots(nVars)));
    ParsedTypesKnown(vars, nVars, TypeSlots(nVars));
    PrintReads(parsed.1, parsed.2, args, 0);
  }

  /** Why a successful parse's report stops early: at slot `used`, below
      nVars, whose supported type reads a value that is missing (the stream
      is exhausted) or of another kind (a kind mismatch). */
  lemma DispatchStops(vars: string, nVars: nat, args: seq<Value>)
    requires '\0' !in vars && nVars > 0
    requires ParseSpec(vars, nVars, ZeroTable(nVars), ZeroTypes(TypeSlots(nVars))).0 == Ok
    ensures var parsed := ParseSpec(vars, nVars, ZeroTable(nVars), ZeroTypes(TypeSlots(nVars)));
      var r := Dispatch(vars, nVars, args);
      r.0.Printed? && r.0.stopped.Some? ==>
        && r.1 < nVars && parsed.2[r.1] < NSupportedTypes
        && !(r.1 < |args| && Fits(RuleFor(parsed.2[r.1]), args[r.1]))
        && r.0.stopped.value == if r.1 < |args| then KindMismatch else StreamExhausted
  {
    var parsed := ParseSpec(vars, nVars, ZeroTable(nVars), ZeroTypes(TypeSlots(nVars)));
    ParsedTypesKnown(vars, nVars, TypeSlots(nVars));
    DispatchPrints(vars, nVars, args);
    PrintStops(parsed.1, parsed.2, args, 0);
  }

  /** After a successful parse the report is the slot loop's over the parsed arrays. */
  lemma DispatchPrints(vars: string, nVars: nat, args: seq<Value>)
    requires nVars > 0
    requires ParseSpec(vars, nVars, ZeroTable(nVars), ZeroTypes(TypeSlots(nVars))).0 == Ok
    ensures var parsed := ParseSpec(vars, nVars, ZeroTable(nVars), ZeroTypes(TypeSlots(nVars)));
      var p := Print(parsed.1, parsed.2, args, 0, 0);
      && |parsed.1| == nVars <= |parsed.2|
      && Dispatch(vars, nVars, args) == (Printed(p.lines, p.stopped), p.used)
  {
  }

  /** A successful parse whose every slot finds its value there and of the
      right kind prints every slot and reads exactly `nVars` values. */
  lemma DispatchAllFit(vars: string, nVars: nat, args: seq<Value>)
    requires '\0' !in vars && nVars > 0
    requires ParseSpec(vars, nVars, ZeroTable(nVars), ZeroTypes(TypeSlots(nVars))).0 == Ok
    requires var parsed := ParseSpec(vars, nVars, ZeroTable(nVars), ZeroTypes(TypeSlots(nVars)));
      forall j | 0 <= j < nVars ::
        j < |args| && j < |parsed.2| && parsed.2[j] < NSupportedTypes && Fits(RuleFor(parsed.2[j]), args[j])
    ensures var r := Dispatch(vars, nVars, args);
      r.0.Printed? && r.0.stopped.None? && r.1 == nVars && |r.0.lines| == nVars
  {
    var parsed := ParseSpec(vars, nVars, ZeroTable(nVars), ZeroTypes(TypeSlots(nVars)));
    ParsedTypesKnown(vars, nVars, TypeSlots(nVars));
    AllFit(parsed.1, parsed.2, args, 0);
  }

  /** End to end: for a list written as "(type) name, ..." with one value of
      the right kind per entry, the call prints every entry's name (cut to
      MAX_VAR_NAME_LEN - 1 letters) with its type's format and value, and
      reads exactly one value per entry. */
  lemma RenderedAssert(ds: seq<Decl>, args: seq<Value>)
    requires ds != [] && forall i | 0 <= i < |ds| :: ValidDecl(ds[i])
    requires forall i | 0 <= i < |ds| :: ValidDecl(ds[i]) && i < |args| && Fits(RuleFor(ds[i].index), args[i])
    ensures var r := Dispatch(Render(ds), |ds|, args);
      && r.0.Printed? && r.0.stopped.None? && r.1 == |ds| && |r.0.lines| == |ds|
      && forall i | 0 <= i < |ds| ::
           ValidDecl(ds[i]) &&
           r.0.lines[i] == Line(Truncate(ds[i].name), FormatFor(ds[i].index), Cast(RuleFor(ds[i].index), args[i]))
  {
    var n := |ds|;
    var parsed := ParseSpec(Render(ds), n, ZeroTable(n), ZeroTypes(TypeSlots(n)));
    RenderRoundTrip(ds, n, ZeroTypes(TypeSlots(n)));
    RenderedPrint(ds, parsed.1, parsed.2, args);
  }

  /** The slot loop over the table and type array a rendered list leaves. */
  lemma RenderedPrint(ds: seq<Decl>, rows: seq<seq<char>>, types: seq<nat>, args: seq<Value>)
    requires |rows| == |ds| <= |types|
    requires forall i | 0 <= i < |ds| :: ValidDecl(ds[i]) && i < |args| && Fits(RuleFor(ds[i].index), args[i])
    requires forall i | 0 <= i < |ds| :: CStr(rows[i]) == Truncate(ds[i].name)
    requires forall k | 0 <= k < |types| :: types[k] == if k < |ds| then ds[k].index else 0
    ensures var p := Print(rows, types, args, 0, 0);
      && p.stopped.None? && p.used == |ds| && |p.lines| == |ds|
      && forall i | 0 <= i < |ds| ::
           ValidDecl(ds[i]) &&
           p.lines[i] == Line(Truncate(ds[i].name), FormatFor(ds[i].index), Cast(RuleFor(ds[i].index), args[i]))
  {
    forall j | 0 <= j < |rows|
      ensures types[j] < NSupportedTypes && j < |args| && Fits(RuleFor(types[j]), args[j])
    {
      SlotFits(ds, types, args, j);
    }
    AllFit(rows, types, args, 0);
    PrintLines(rows, types, args, 0);
  }

  /** Slot `j` of a rendered list holds a known type whose value is there. */
  lemma SlotFits(ds: seq<Decl>, types: seq<nat>, args: seq<Value>, j: nat)
    requires j < |ds| <= |types|
    requires ValidDecl(ds[j]) && j < |args| && Fits(RuleFor(ds[j].index), args[j])
    requires types[j] == ds[j].index
    ensures types[j] < NSupportedTypes && Fits(RuleFor(types[j]), args[j])
  {
  }

  /** When every slot's value is there and of the right kind, the loop runs to
      the last slot. */
  lemma {:induction false} AllFit(rows: seq<seq<char>>, types: seq<nat>, args: seq<Value>, i: nat)
    requires i <= |rows| <= |types|
    requires forall j | i <= j < |rows| :: types[j] < NSupportedTypes && j < |args| && Fits(RuleFor(types[j]), args[j])
    ensures Print(rows, types, args, i, i).stopped.None?
    decreases |rows| - i
  {
    if i < |rows| {
      AllFit(rows, types, args, i + 1);
    }
  }

  /** The table is a fresh zeroed `nVars` x MAX_VAR_NAME_LEN block. */
  lemma ZeroRows(names: array2<char>, n: nat)
    requires names.Length0 == n && names.Length1 == MaxVarNameLen
    requires forall i, j | 0 <= i < n && 0 <= j < MaxVarNameLen :: names[i, j] == '\0'
    ensures Rows(names) == ZeroTable(n)
  {
    SameTable(Rows(names), ZeroTable(n));
  }

  /** `advassert_` after its header: allocation, parse, and the slot loop. */
  method AdvAssert(vars: string, nVars: nat, args: seq<Value>) returns (report: Report, used: nat)
    requires '\0' !in vars
    ensures (report, used) == Dispatch(vars, nVars, args)
  {
    if nVars == 0 {
      return NoVariables, 0;
    }
    var names := new char[nVars, MaxVarNameLen]((_, _) => '\0');
    var types := new nat[TypeSlots(nVars)](_ => 0);
    ZeroRows(names, nVars);
    assert types[..] == ZeroTypes(TypeSlots(nVars));
    var status := ParseVars(vars, nVars, names, types);
    match status {
      case Fail => return ParseFailed(vars), 0;
      case Undefined(h) => return ParseUndefined(h), 0;
      case Ok =>
        var lines, k, stopped := PrintSlots(names, types, args);
        return Printed(lines, stopped), k;
    }
  }

  /** The `for` loop over the slots: the format is assembled from the table
      entry of the slot's type, then the slot's value is fetched. */
  method PrintSlots(names: array2<char>, types: array<nat>, args: seq<Value>)
    returns (lines: seq<Line>, k: nat, stopped: Option<Hazard>)
    requires names.Length0 <= types.Length
    ensures Printing(lines, k, stopped) == Print(Rows(names), types[..], args, 0, 0)
  {
    ghost var rows := Rows(names);
    ghost var whole := Print(rows, types[..], args, 0, 0);
    lines := [];
    var i: nat;
    i, k := 0, 0;
    while i < names.Length0
      invariant i <= names.Length0 && k == i
      invariant var rest := Print(rows, types[..], args, i, k);
        whole == Printing(lines + rest.lines, rest.used, rest.stopped)
    {
      var t := types[i];
      if t >= NSupportedTypes {
        return lines, k, Some(TableOverrun);
      }
      var fetched := VaArg(RuleFor(t), args, k);
      match fetched {
        case Broken(h) => return lines, k, Some(h);
        case Fetched(v) =>
          lines := lines + [Line(CStr(Rows(names)[i]), FormatFor(t), v)];
      }
      i, k := i + 1, k + 1;
    }
    return lines, k, None;
  }
}
