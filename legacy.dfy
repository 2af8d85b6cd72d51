/** The older `advassert_(int condition, int nArgs, ...)` of the top-level
    advassert.cpp: when the condition is 0 it reads `nArgs` (tag, value) pairs
    from the variadic arguments and prints each value with the conversion its
    tag selects. The arguments are an explicit sequence of values. */
module Legacy {
  import opened CRuntime
  import opened Registry

  /** Arguments that make up one printed variable: its tag and its value. */
  const ArgMultiplier: int := 2

  /** The members of `enum class AdvAssertType`; 6 has no member. */
  const TagInt: int := 0
  const TagChar: int := 1
  const TagDouble: int := 2
  const TagFloat: int := 3
  const TagString: int := 4
  const TagLongInt: int := 5
  const TagPointer: int := 7

  predicate KnownTag(tag: int) {
    tag == TagInt || tag == TagChar || tag == TagDouble || tag == TagFloat ||
    tag == TagString || tag == TagLongInt || tag == TagPointer
  }

  /** What the call prints, in order. */
  datatype Event =
    | Banner                                // "!!!ADV_ASSERT!!!"
    | NoArguments                           // "No arguments to print."
    | Shown(format: string, value: Value)   // one value, with the conversion of its tag
    | UnknownTag                            // "Unknown AdvAssertType. Can't read arguments..."

  /** The events printed, the number of arguments read, and the undefined
      behaviour that ended the call early, if any. */
  datatype Run = Run(events: seq<Event>, used: nat, stopped: Option<Hazard>)

  /** The `va_arg` of each `case`; no rule for a tag outside the enum. */
  function TagRule(tag: int): (r: Option<ReadRule>)
    ensures r.Some? <==> KnownTag(tag)
    ensures r.Some? ==> r.value != AsLong || tag == TagLongInt
  {
    if tag == TagInt then Some(AsInt)
    else if tag == TagChar then Some(AsCharFromInt)
    else if tag == TagDouble || tag == TagFloat then Some(AsDouble)
    else if tag == TagString then Some(AsString)
    else if tag == TagLongInt then Some(AsLong)
    else if tag == TagPointer then Some(AsPointer)
    else None
  }

  /** The `fprintf` format of each `case`: one conversion, then a newline. */
  function TagFormat(tag: int): (f: string)
    requires KnownTag(tag)
    ensures 3 <= |f| && f[0] == '%' && f[|f| - 1] == '\n'
    ensures '%' !in f[1..]
  {
    if tag == TagInt then "%d\n"
    else if tag == TagChar then "%c\n"
    else if tag == TagDouble || tag == TagFloat then "%f\n"
    else if tag == TagString then "%s\n"
    else if tag == TagLongInt then "%li\n"
    else "%p\n"
  }

  /** The printf conversion, followed by a newline, that displays the value
      `rule` fetches. */
  predicate TagConversion(format: string, rule: ReadRule) {
    || (format == "%d\n" && rule == AsInt)
    || (format == "%c\n" && rule == AsCharFromInt)
    || (format == "%f\n" && rule == AsDouble)
    || (format == "%s\n" && rule == AsString)
    || (format == "%li\n" && rule == AsLong)
    || (format == "%p\n" && rule == AsPointer)
  }

  /** For every tag of the enum, the format of its `case` displays the value
      its `va_arg` reads, and each read is selected by exactly the tags whose
      `case` performs it. */
  lemma TagReads(tag: int)
    requires KnownTag(tag)
    ensures TagConversion(TagFormat(tag), TagRule(tag).value)
    ensures TagRule(tag).value == AsInt <==> tag == TagInt
    ensures TagRule(tag).value == AsCharFromInt <==> tag == TagChar
    ensures TagRule(tag).value == AsDouble <==> tag == TagDouble || tag == TagFloat
    ensures TagRule(tag).value == AsString <==> tag == TagString
    ensures TagRule(tag).value == AsPointer <==> tag == TagPointer
  {
  }

  /** Shown events among `events`. */
  function CountShown(events: seq<Event>): (c: nat)
    ensures c <= |events|
  {
    if events == [] then 0 else (if events[0].Shown? then 1 else 0) + CountShown(events[1..])
  }

  lemma {:induction false} CountShownAppend(a: seq<Event>, b: seq<Event>)
    ensures CountShown(a + b) == CountShown(a) + CountShown(b)
  {
    if a != [] {
      assert (a + b)[1..] == a[1..] + b;
      CountShownAppend(a[1..], b);
    } else {
      assert a + b == b;
    }
  }

  /** One iteration of the loop: the event it prints and the arguments it
      reads, or where it runs into undefined behaviour. */
  datatype Turn = Turn(event: Event, used: nat) | Halt(used: nat, hazard: Hazard)

  /** One iteration over the arguments still to be read: an `int` tag, then
      one value for a known tag and nothing more for an unknown one. */
  function Iteration(args: seq<Value>): (t: Turn)
    ensures t.used <= |args|
    ensures t.Turn? ==> (t.event.Shown? || t.event.UnknownTag?) && t.used == if t.event.Shown? then 2 else 1
    ensures t.Turn? && t.event.UnknownTag? <==> |args| > 0 && args[0].Int? && !KnownTag(args[0].i)
    ensures t.Halt? && t.used == 0 <==> |args| == 0 || !args[0].Int?
  {
    match VaArg(AsInt, args, 0)
    case Broken(h) => Halt(0, h)
    case Fetched(tag) =>
      match TagRule(tag.i)
      case None => Turn(UnknownTag, 1)
      case Some(rule) =>
        match VaArg(rule, args, 1)
        case Broken(h) => Halt(1, h)
        case Fetched(v) => Turn(Shown(TagFormat(tag.i), v), 2)
  }

  /** The `for (n = nArgs; n > 0; n -= ARG_MULTIPLIER)` loop over the
      arguments still to be read. */
  function Pairs(n: int, args: seq<Value>): (r: Run)
    ensures r.used <= |args|
    decreases n
  {
    if n <= 0 then Run([], 0, None)
    else match Iteration(args)
      case Halt(c, h) => Run([], c, Some(h))
      case Turn(e, c) =>
        var p := Pairs(n - ArgMultiplier, args[c..]);
        Run([e] + p.events, p.used + c, p.stopped)
  }

  /** Alignment of a loop that runs to its end: every iteration prints one
      event and reads one argument for it, plus one more for a shown value;
      a counter starting at 2N gives N iterations. */
  lemma {:induction false} PairsAligned(n: int, args: seq<Value>)
    ensures var r := Pairs(n, args);
      r.stopped.None? ==> r.used == |r.events| + CountShown(r.events)
    ensures var r := Pairs(n, args);
      r.stopped.None? && n >= 0 && n % 2 == 0 ==> 2 * |r.events| == n
    decreases n
  {
    if n > 0 && Iteration(args).Turn? {
      var t := Iteration(args);
      PairsTurn(n, args);
      PairsAligned(n - ArgMultiplier, args[t.used..]);
      CountShownAppend([t.event], Pairs(n - ArgMultiplier, args[t.used..]).events);
    }
  }

  lemma PairsTurn(n: int, args: seq<Value>)
    requires n > 0 && Iteration(args).Turn?
    ensures var t := Iteration(args);
      var p := Pairs(n - ArgMultiplier, args[t.used..]);
      Pairs(n, args) == Run([t.event] + p.events, p.used + t.used, p.stopped)
  {
  }

  lemma PairsHalt(n: int, args: seq<Value>)
    requires n > 0 && Iteration(args).Halt?
    ensures Pairs(n, args) == Run([], Iteration(args).used, Some(Iteration(args).hazard))
  {
  }

  /** A whole call. `nArgs *= ARG_MULTIPLIER` comes first and overflows `int`
      for |nArgs| >= 2^30. */
  function Legacy(condition: int, nArgs: int, args: seq<Value>): (r: Run)
    requires IsInt32(nArgs)
    ensures condition != 0 ==> r == Run([], 0, None)
    ensures condition == 0 && IsInt32(nArgs * ArgMultiplier) ==> |r.events| > 0 && r.events[0] == Banner
    ensures condition == 0 && nArgs == 0 ==> r == Run([Banner, NoArguments], 0, None)
    ensures condition == 0 && nArgs < 0 && IsInt32(nArgs * ArgMultiplier) ==> r == Run([Banner], 0, None)
  {
    if condition != 0 then Run([], 0, None)
    else if !IsInt32(nArgs * ArgMultiplier) then Run([], 0, Some(SignedOverflow))
    else
      var n := nArgs * ArgMultiplier;
      var p := Pairs(n, args);
      Run([Banner] + (if n == 0 then [NoArguments] else []) + p.events, p.used, p.stopped)
  }

  /** One variable as the macro's caller passes it: a tag and a value. */
  datatype Arg = Arg(tag: int, value: Value)

  predicate WellTagged(a: Arg) {
    KnownTag(a.tag) && Fits(TagRule(a.tag).value, a.value)
  }

  /** The argument list `tag1, var1, tag2, var2, ...` (an enum travels as int). */
  function Encode(items: seq<Arg>): (s: seq<Value>)
    ensures |s| == 2 * |items|
  {
    if items == [] then [] else [Int(items[0].tag), items[0].value] + Encode(items[1..])
  }

  /** What printing `items` shows, in order. */
  function Shows(items: seq<Arg>): (es: seq<Event>)
    requires forall i | 0 <= i < |items| :: WellTagged(items[i])
    ensures |es| == |items|
  {
    if items == [] then []
    else
      assert WellTagged(items[0]);
      [Shown(TagFormat(items[0].tag), Cast(TagRule(items[0].tag).value, items[0].value))] + Shows(items[1..])
  }

  /** Alignment: N well-tagged pairs are read as exactly N iterations of two
      arguments each; nothing after them is read. */
  lemma {:induction false} EncodedPairs(items: seq<Arg>, rest: seq<Value>)
    requires forall i | 0 <= i < |items| :: WellTagged(items[i])
    ensures Pairs(ArgMultiplier * |items|, Encode(items) + rest) == Run(Shows(items), 2 * |items|, None)
    decreases |items|
  {
    if items != [] {
      var a := items[0];
      var args := Encode(items) + rest;
      assert WellTagged(a);
      EncodeHead(items, rest);
      assert ArgMultiplier * |items| - ArgMultiplier == ArgMultiplier * |items[1..]|;
      TaggedTurn(a, args);
      PairsTurn(ArgMultiplier * |items|, args);
      EncodedPairs(items[1..], rest);
    }
  }

  /** The encoding of a non-empty list starts with the first pair's tag and value. */
  lemma EncodeHead(items: seq<Arg>, rest: seq<Value>)
    requires items != []
    ensures var args := Encode(items) + rest;
      && |args| >= 2 && args[0] == Int(items[0].tag) && args[1] == items[0].value
      && args[2..] == Encode(items[1..]) + rest
  {
    var head: seq<Value> := [Int(items[0].tag), items[0].value];
    var tail := Encode(items[1..]) + rest;
    assert Encode(items) + rest == head + tail;
    assert (head + tail)[2..] == tail;
  }

  /** One iteration over a well-tagged pair shows its value and reads both arguments. */
  lemma TaggedTurn(a: Arg, args: seq<Value>)
    requires WellTagged(a) && 2 <= |args| && args[0] == Int(a.tag) && args[1] == a.value
    ensures Iteration(args) == Turn(Shown(TagFormat(a.tag), Cast(TagRule(a.tag).value, a.value)), 2)
  {
  }

  /** A whole call with N well-tagged pairs: the banner, the notice when N is
      0, then one line per pair; exactly 2N arguments are read. */
  lemma EncodedCall(items: seq<Arg>, rest: seq<Value>)
    requires forall i | 0 <= i < |items| :: WellTagged(items[i])
    requires IsInt32(ArgMultiplier * |items|)
    ensures Legacy(0, |items|, Encode(items) + rest) ==
            Run([Banner] + (if items == [] then [NoArguments] else []) + Shows(items), 2 * |items|, None)
  {
    EncodedPairs(items, rest);
    assert |items| * ArgMultiplier == ArgMultiplier * |items|;
  }

  /** An unknown tag takes one argument only, so the value after it is read as
      the next iteration's tag. */
  lemma UnknownTagSkipsOne(n: int, tag: int, args: seq<Value>)
    requires n > 0 && !KnownTag(tag)
    ensures Pairs(n, [Int(tag)] + args) ==
            var p := Pairs(n - ArgMultiplier, args);
            Run([UnknownTag] + p.events, p.used + 1, p.stopped)
  {
    assert ([Int(tag)] + args)[1..] == args;
  }

  /** `ADV_ASSERT(0, 2, 6, 5, 9L)`: tag 6 is unknown, so the second iteration
      takes its value 5 as the LONG_INT tag and prints 9 as a long; two
      iterations read three arguments. */
  lemma MisalignedExample()
    ensures Legacy(0, 2, [Int(6), Int(5), Long(9)]) ==
            Run([Banner, UnknownTag, Shown("%li\n", Long(9))], 3, None)
  {
    var args := [Int(6), Int(5), Long(9)];
    assert args[1..] == [Int(5), Long(9)];
    assert args[1..][2..] == [];
  }

  /** The function body as the C code runs it. */
  method LegacyAssert(condition: int, nArgs: int, args: seq<Value>) returns (events: seq<Event>, used: nat, stopped: Option<Hazard>)
    requires IsInt32(nArgs)
    ensures Run(events, used, stopped) == Legacy(condition, nArgs, args)
  {
    if condition != 0 {
      return [], 0, None;
    }
    if !IsInt32(nArgs * ArgMultiplier) {
      return [], 0, Some(SignedOverflow);
    }
    var total := nArgs * ArgMultiplier;
    events := [Banner];
    if total == 0 {
      events := events + [NoArguments];
    }
    var printed;
    printed, used, stopped := ReadPairs(total, args);
    events := events + printed;
  }

  /** The `for` loop, counting `n` down by ARG_MULTIPLIER from `total`. */
  method ReadPairs(total: int, args: seq<Value>) returns (printed: seq<Event>, used: nat, stopped: Option<Hazard>)
    ensures Run(printed, used, stopped) == Pairs(total, args)
  {
    printed, used := [], 0;
    var n := total;
    while n > 0
      invariant used <= |args|
      invariant var p := Pairs(n, args[used..]);
        Pairs(total, args) == Run(printed + p.events, used + p.used, p.stopped)
      decreases n
    {
      ghost var rest := args[used..];
      var t := ReadIteration(args, used);
      match t {
        case Halt(c, h) =>
          PairsHalt(n, rest);
          assert printed + [] == printed;
          return printed, used + c, Some(h);
        case Turn(e, c) =>
          TurnKeeps(Pairs(total, args), printed, used, rest, n, e, c);
          assert rest[c..] == args[used + c..];
          printed, used := printed + [e], used + c;
      }
      n := n - ArgMultiplier;
    }
    return printed, used, None;
  }

  /** One more iteration of ReadPairs keeps its invariant. */
  lemma TurnKeeps(whole: Run, printed: seq<Event>, used: nat, rest: seq<Value>, n: int, e: Event, c: nat)
    requires n > 0 && Iteration(rest) == Turn(e, c)
    requires var p := Pairs(n, rest); whole == Run(printed + p.events, used + p.used, p.stopped)
    ensures var p := Pairs(n - ArgMultiplier, rest[c..]);
      whole == Run((printed + [e]) + p.events, (used + c) + p.used, p.stopped)
  {
    PairsTurn(n, rest);
    var p := Pairs(n - ArgMultiplier, rest[c..]);
    assert printed + ([e] + p.events) == (printed + [e]) + p.events;
  }

  /** The loop body: the tag, the `switch` on it and the value it reads. */
  method ReadIteration(args: seq<Value>, used: nat) returns (t: Turn)
    requires used <= |args|
    ensures t == Iteration(args[used..])
  {
    var tagRead := VaArg(AsInt, args, used);
    if tagRead.Broken? {
      return Halt(0, tagRead.h);
    }
    var tag := tagRead.v.i;
    var rule := TagRule(tag);
    if rule.None? {
      return Turn(UnknownTag, 1);
    }
    var valueRead := VaArg(rule.value, args, used + 1);
    if valueRead.Broken? {
      return Halt(1, valueRead.h);
    }
    return Turn(Shown(TagFormat(tag), valueRead.v), 2);
  }
}
