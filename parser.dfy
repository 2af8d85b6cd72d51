/** `parse_vars`: one forward scan over the stringified variable list
    "(type) name, (type) name, ..." that fills a table of names (rows of
    MAX_VAR_NAME_LEN characters) and an array of type indices.

    The specification is a state machine: `Scanner` holds exactly what the C
    function keeps in its variables (the input pointer as the unread rest of
    the string, `is_in_name`, the two counters, the type cursor) together with
    the contents of the two output arrays; `StepScan` is one iteration of the
    outer loop and `Scan` runs it to the end. `ParseVars` is the imperative
    scan over arrays, proved to produce what `Scan` describes. */
module Parser {
  import opened CRuntime
  import opened Registry

  /** Letters a stored name keeps: MAX_VAR_NAME_LEN - 1. */
  const NameCap: nat := MaxVarNameLen - 1
  /** Characters the type copy loop takes before it gives up: MAX_TYPE_NAME_LEN - 1. */
  const TypeCap: nat := MaxTypeNameLen - 1

  /** A comma or an isspace character ends a name. */
  predicate IsSeparator(c: char) {
    c == ',' || IsSpace(c)
  }

  /** A character that the scan copies into a name. */
  predicate IsNameChar(c: char) {
    !IsSeparator(c) && c != '(' && c != '\0'
  }

  /** The value `parse_vars` returns (1 or 0), and the places where it has
      undefined behaviour instead. */
  datatype Status = Ok | Fail | Undefined(hazard: Hazard)

  function Zeros(k: nat): (z: seq<char>)
    ensures |z| == k && forall i | 0 <= i < k :: z[i] == '\0'
  {
    seq(k, _ => '\0')
  }

  /** A row as `calloc` leaves it once `x` has been written at its start. */
  function Pad(x: string): (row: seq<char>)
    requires |x| <= MaxVarNameLen
    ensures |row| == MaxVarNameLen
    ensures forall i | 0 <= i < MaxVarNameLen :: row[i] == if i < |x| then x[i] else '\0'
  {
    x + Zeros(MaxVarNameLen - |x|)
  }

  /** The C string held in a row: everything before the first '\0'. */
  function CStr(row: seq<char>): (r: string)
    ensures |r| <= |row| && r == row[..|r|]
    ensures '\0' !in r
    ensures |r| < |row| ==> row[|r|] == '\0'
  {
    if row == [] || row[0] == '\0' then [] else [row[0]] + CStr(row[1..])
  }

  /** A name as the scan stores it: between 1 and NameCap name characters, then '\0'. */
  predicate IsStoredName(row: seq<char>) {
    var name := CStr(row);
    name != [] && |name| <= NameCap && forall i | 0 <= i < |name| :: IsNameChar(name[i])
  }

  /** The part of `t` after its leading isspace characters (lines 198-199). */
  function SkipSpace(t: string): (r: string)
    ensures |r| <= |t| && r == t[|t| - |r|..]
    ensures r == [] || !IsSpace(r[0])
  {
    if t != [] && IsSpace(t[0]) then SkipSpace(t[1..]) else t
  }

  /** The part of `t` from its first separator on: what the skip loop of line
      260 leaves after an over-long name. */
  function SkipWord(t: string): (r: string)
    ensures |r| <= |t| && r == t[|t| - |r|..]
    ensures r == [] || IsSeparator(r[0])
    ensures forall i | 0 <= i < |t| - |r| :: !IsSeparator(t[i])
  {
    if t == [] || IsSeparator(t[0]) then t
    else
      var r := SkipWord(t[1..]);
      assert forall i | 1 <= i < |t| - |r| :: t[i] == t[1..][i - 1];
      r
  }

  /** `t` without its trailing ' ' characters; tabs and other whitespace stay
      (the loop of line 223 compares with ' ' only). */
  function TrimSpaces(t: string): (r: string)
    ensures |r| <= |t| && r == t[..|r|]
    ensures r == [] || r[|r| - 1] != ' '
  {
    if t != [] && t[|t| - 1] == ' ' then TrimSpaces(t[..|t| - 1]) else t
  }

  /** Line 230: a text whose last character is '*' is replaced by the
      pointer entry's text, whatever precedes the '*'. */
  function PointerRewrite(text: string): (r: string)
    ensures text != [] && text[|text| - 1] == '*' ==> r == TypeNames[VOID_PTR]
    ensures text == [] || text[|text| - 1] != '*' ==> r == text
  {
    if text != [] && text[|text| - 1] == '*' then PointerName else text
  }

  /** Lines 229-243: the (rewritten) text looked up in the table. */
  function ResolveText(text: string): (r: Option<nat>)
    ensures r.Some? ==> r.value < NSupportedTypes && TypeNames[r.value] == PointerRewrite(text)
  {
    Lookup(PointerRewrite(text))
  }

  lemma ResolvePointer(text: string)
    requires text != [] && text[|text| - 1] == '*'
    ensures ResolveText(text) == Some(VOID_PTR)
  {
    LookupFindsEnumValue(VOID_PTR);
  }

  /** Without a trailing '*', resolution is the exact, case-sensitive match. */
  lemma ResolveExact(text: string, t: nat)
    requires text == [] || text[|text| - 1] != '*'
    ensures ResolveText(text) == Some(t) <==> t < NSupportedTypes && TypeNames[t] == text
    ensures ResolveText(text) == None <==> text !in TypeNames
  {
    LookupMisses(text);
    if t < NSupportedTypes && TypeNames[t] == text {
      LookupFindsEnumValue(t);
    }
  }

  /** Outcome of the copy loop of lines 206-217. */
  datatype Copy =
    | Closed(len: nat)  // `len` characters copied, then ')' found
    | TooLong           // MAX_TYPE_NAME_LEN - 1 characters copied without a ')'
    | PastEnd           // the terminator was copied and the next read lies beyond it

  /** The copy loop, with the first `k` characters of `body` already in the
      buffer. Reading position |body| yields the terminator '\0'. */
  function CopyType(body: string, k: nat): (c: Copy)
    requires k <= |body| && k < TypeCap
    ensures c.Closed? ==> k <= c.len < |body| && c.len < TypeCap && body[c.len] == ')'
    decreases |body| - k
  {
    if k < |body| && body[k] == ')' then Closed(k)
    else if k + 1 == TypeCap then TooLong
    else if k == |body| then PastEnd
    else CopyType(body, k + 1)
  }

  /** Outcome of one "(type)" annotation. */
  datatype TypeRead =
    | Resolved(index: nat, used: nat)  // the type index and the characters read, ')' included
    | Rejected                         // parse_vars returns 0
    | Hazardous(hazard: Hazard)

  /** Lines 194-243, from the character after '(' on. */
  function ReadAnnotation(after: string): (r: TypeRead)
    ensures r.Resolved? ==> r.index < NSupportedTypes && 1 <= r.used <= |after|
  {
    var body := SkipSpace(after);
    Shift(AnnotationBody(body), |after| - |body|)
  }

  /** Lines 206-243, from the first character of the type text on: `body`
      starts after the whitespace that lines 198-199 skip, so a body whose
      copied text is all blank cannot occur (in C it would underflow the
      buffer index just like `()`). */
  function AnnotationBody(body: string): (r: TypeRead)
    requires body == [] || !IsSpace(body[0])
    ensures r.Resolved? ==> r.index < NSupportedTypes && 1 <= r.used <= |body|
  {
    match CopyType(body, 0)
    case TooLong => Rejected
    case PastEnd => Hazardous(ReadPastEnd)
    case Closed(m) =>
      if m == 0 then Hazardous(EmptyTypeUnderflow)
      else match ResolveText(TrimSpaces(body[..m]))
        case None => Rejected
        case Some(t) => Resolved(t, m + 1)
  }

  function Shift(r: TypeRead, k: nat): TypeRead {
    if r.Resolved? then Resolved(r.index, r.used + k) else r
  }

  /** The state of `parse_vars` at the head of its outer loop. */
  datatype Scanner = Scanner(
    rest: string,           // the unread input, from p_curr_vars on
    inName: bool,           // is_in_name
    slot: nat,              // ind_curr_parsed_vars: names closed so far
    letters: nat,           // name_letter_cnt
    table: seq<seq<char>>,  // the rows of parsed_vars
    tcur: nat,              // entries written through the parsed_types cursor
    types: seq<nat>)        // the contents of parsed_types

  /** Lines 167-171: the scan starts at the head of the input, outside a
      name, with no name closed, no letter counted, the name cursor on the
      first cell of the first row and no type written. */
  function Start(s: string, table: seq<seq<char>>, types: seq<nat>): (r: Scanner)
    ensures r.rest == s && !r.inName
    ensures r.slot == 0 && r.letters == 0 && Cursor(r.letters) == 0 && r.tcur == 0
    ensures r.table == table && r.types == types
  {
    Scanner(s, false, 0, 0, table, 0, types)
  }

  /** Where p_curr_parsed_vars points in the current row: it stops at the
      row's last cell once a name has MAX_VAR_NAME_LEN letters. */
  function Cursor(letters: nat): (c: nat)
    ensures c < MaxVarNameLen
    ensures letters <= NameCap ==> c == letters
    ensures NameCap <= letters ==> c == NameCap
  {
    if letters < NameCap then letters else NameCap
  }

  /** Writes `c` at row `i`, column `j`; the scan only writes inside the
      table (see Inv), and the guard keeps this function total. */
  function Put(t: seq<seq<char>>, i: nat, j: nat, c: char): (r: seq<seq<char>>)
    ensures |r| == |t|
    ensures forall k | 0 <= k < |t| && k != i :: r[k] == t[k]
    ensures i < |t| ==> |r[i]| == |t[i]|
    ensures i < |t| ==> forall k | 0 <= k < |t[i]| && k != j :: r[i][k] == t[i][k]
  {
    if i < |t| && j < |t[i]| then t[i := t[i][j := c]] else t
  }

  /** What holds of the scan's state at every iteration. */
  predicate Inv(n: nat, st: Scanner) {
    && '\0' !in st.rest
    && |st.table| == n
    && (forall j | 0 <= j < n :: |st.table[j]| == MaxVarNameLen)
    && st.slot <= n
    && st.letters <= MaxVarNameLen
    && st.tcur <= |st.types|
    && (st.inName <==> st.letters > 0)
    && (st.letters > 0 ==> st.slot < n)
    && (st.letters == MaxVarNameLen ==> st.rest == [] || IsSeparator(st.rest[0]))
    && (forall j | 0 <= j < st.slot :: IsStoredName(st.table[j]))
    && (st.slot < n ==> forall k | 0 <= k < Cursor(st.letters) :: IsNameChar(st.table[st.slot][k]))
    && (forall k | 0 <= k < st.tcur :: st.types[k] < NSupportedTypes)
  }

  datatype Step = Next(next: Scanner) | Stop(status: Status)

  /** One iteration of the outer loop (lines 177-275). */
  function StepScan(st: Scanner): (r: Step)
    requires st.rest != []
    ensures r.Next? ==> |r.next.rest| < |st.rest|
  {
    var c := st.rest[0];
    if IsSeparator(c) then
      if st.inName then
        // the current name ends: terminate it and move to the next row
        Next(st.(rest := st.rest[1..], inName := false, letters := 0, slot := st.slot + 1,
                 table := Put(st.table, st.slot, Cursor(st.letters), '\0')))
      else
        Next(st.(rest := st.rest[1..]))
    else if c == '(' then AnnotationStep(st)
    else if st.letters + 1 == MaxVarNameLen then Next(CapName(st))
    else Next(st.(rest := st.rest[1..], inName := true, letters := st.letters + 1,
                  table := Put(st.table, st.slot, st.letters, c)))
  }

  /** The iteration that starts at a '(': the annotation stops the scan, or
      its type index is stored at the type cursor. */
  function AnnotationStep(st: Scanner): (r: Step)
    requires st.rest != []
    ensures r.Next? ==> |r.next.rest| < |st.rest|
  {
    match ReadAnnotation(st.rest[1..])
    case Rejected => Stop(Fail)
    case Hazardous(h) => Stop(Undefined(h))
    case Resolved(t, used) =>
      // the type cursor advances independently of the name counter
      if st.tcur >= |st.types| then Stop(Undefined(TypeSlotOverflow))
      else Next(st.(rest := st.rest[1 + used..], tcur := st.tcur + 1,
                    types := st.types[st.tcur := t]))
  }

  /** The MAX_VAR_NAME_LEN-th letter of a name: it is stored, the rest of the
      word is skipped, and at the end of the input the '\0' overwrites the
      letter just written. */
  function CapName(st: Scanner): (r: Scanner)
    requires st.rest != []
    ensures r.inName && r.letters == MaxVarNameLen
    ensures r.slot == st.slot && r.tcur == st.tcur && r.types == st.types
    ensures |r.rest| <= |st.rest| && r.rest == st.rest[|st.rest| - |r.rest|..]
    ensures r.rest == [] || IsSeparator(r.rest[0])
    ensures forall i | 0 <= i < |st.rest| - |r.rest| :: !IsSeparator(st.rest[i])
    ensures |r.table| == |st.table| && forall j | 0 <= j < |st.table| && j != st.slot :: r.table[j] == st.table[j]
    ensures st.slot < |st.table| ==> |r.table[st.slot]| == |st.table[st.slot]|
    ensures r.rest == [] && st.slot < |st.table| && NameCap < |st.table[st.slot]| ==> r.table[st.slot][NameCap] == '\0'
  {
    var table := Put(st.table, st.slot, st.letters, st.rest[0]);
    var tail := SkipWord(st.rest);
    st.(rest := tail, inName := true, letters := MaxVarNameLen,
        table := if tail == [] then Put(table, st.slot, NameCap, '\0') else table)
  }

  lemma CStrOfNameRow(row: seq<char>, k: nat)
    requires k < |row| && row[k] == '\0'
    requires forall i | 0 <= i < k :: IsNameChar(row[i])
    ensures CStr(row) == row[..k]
  {
    var r := CStr(row);
    assert forall i | 0 <= i < k :: row[i] != '\0';
    assert |r| < |row| ==> row[|r|] == '\0';
  }

  /** Closing a name keeps Inv: the row gets its '\0' right after the
      name's letters, so it holds a stored name. */
  lemma CloseKeepsInv(n: nat, st: Scanner)
    requires Inv(n, st) && st.rest != [] && IsSeparator(st.rest[0]) && st.inName
    ensures StepScan(st).Next? && Inv(n, StepScan(st).next)
  {
    CloseStep(st);
    var nx := StepScan(st).next;
    var row := st.table[st.slot];
    var k := Cursor(st.letters);
    assert nx.table[st.slot] == row[k := '\0'];
    CStrOfNameRow(row[k := '\0'], k);
    assert forall j | 0 <= j < nx.slot :: IsStoredName(nx.table[j]) by {
      forall j | 0 <= j < nx.slot ensures IsStoredName(nx.table[j]) {
        if j < st.slot {
          assert nx.table[j] == st.table[j];
        }
      }
    }
  }

  /** Storing a letter keeps Inv. */
  lemma LetterKeepsInv(n: nat, st: Scanner)
    requires Inv(n, st) && st.rest != [] && IsNameChar(st.rest[0]) && st.slot < n
    requires st.letters + 1 < MaxVarNameLen
    ensures StepScan(st).Next? && Inv(n, StepScan(st).next)
  {
    LetterStep(st);
    var nx := StepScan(st).next;
    assert nx.table[st.slot][..st.letters] == st.table[st.slot][..st.letters];
  }

  /** Storing the MAX_VAR_NAME_LEN-th letter keeps Inv: the input is then at
      a separator or at its end. */
  lemma TruncateKeepsInv(n: nat, st: Scanner)
    requires Inv(n, st) && st.rest != [] && st.slot < n
    requires st.letters + 1 == MaxVarNameLen
    ensures Inv(n, CapName(st))
  {
    var nx := CapName(st);
    TruncatedInv(n, st, nx, |st.rest| - |nx.rest|);
  }

  /** A suffix of a string without '\0' has none either. */
  lemma NoNulSuffix(t: string, k: nat)
    requires k <= |t| && '\0' !in t
    ensures '\0' !in t[k..]
  {
    assert forall i | 0 <= i < |t| - k :: t[k..][i] == t[k + i];
  }

  /** Inv of a state that differs from `st` only as CapName changes it:
      the input skipped to a separator, the row's first NameCap cells kept. */
  lemma TruncatedInv(n: nat, st: Scanner, nx: Scanner, skipped: nat)
    requires Inv(n, st) && st.slot < n && st.letters + 1 == MaxVarNameLen
    requires skipped <= |st.rest| && nx.rest == st.rest[skipped..]
    requires nx.rest == [] || IsSeparator(nx.rest[0])
    requires nx.inName && nx.letters == MaxVarNameLen
    requires nx.slot == st.slot && nx.tcur == st.tcur && nx.types == st.types
    requires |nx.table| == n && (forall j | 0 <= j < n && j != st.slot :: nx.table[j] == st.table[j])
    requires |nx.table[st.slot]| == MaxVarNameLen
    requires forall k | 0 <= k < NameCap :: nx.table[st.slot][k] == st.table[st.slot][k]
    ensures Inv(n, nx)
  {
    NoNulSuffix(st.rest, skipped);
  }

  /** An iteration keeps Inv. */
  lemma StepKeepsInv(n: nat, st: Scanner)
    requires st.rest != [] && st.slot < n && StepScan(st).Next?
    ensures Inv(n, st) ==> Inv(n, StepScan(st).next)
  {
    if !Inv(n, st) {
      return;
    }
    var c := st.rest[0];
    if IsSeparator(c) {
      if st.inName {
        CloseKeepsInv(n, st);
      } else {
        SeparatorStep(st);
      }
    } else if c != '(' {
      if st.letters + 1 < MaxVarNameLen {
        LetterKeepsInv(n, st);
      } else {
        TruncateStep(st);
        TruncateKeepsInv(n, st);
      }
    }
  }

  lemma SeparatorStep(st: Scanner)
    requires st.rest != [] && IsSeparator(st.rest[0]) && !st.inName
    ensures StepScan(st) == Next(st.(rest := st.rest[1..]))
  {
  }

  lemma CloseStep(st: Scanner)
    requires st.rest != [] && IsSeparator(st.rest[0]) && st.inName
    ensures StepScan(st) == Next(st.(rest := st.rest[1..], inName := false, letters := 0,
      slot := st.slot + 1, table := Put(st.table, st.slot, Cursor(st.letters), '\0')))
  {
  }

  lemma LetterStep(st: Scanner)
    requires st.rest != [] && IsNameChar(st.rest[0]) && st.letters + 1 < MaxVarNameLen
    ensures StepScan(st) == Next(st.(rest := st.rest[1..], inName := true, letters := st.letters + 1,
      table := Put(st.table, st.slot, st.letters, st.rest[0])))
  {
  }

  lemma TruncateStep(st: Scanner)
    requires st.rest != [] && IsNameChar(st.rest[0]) && st.letters + 1 == MaxVarNameLen
    ensures StepScan(st) == Next(CapName(st))
  {
  }

  lemma ParenStep(st: Scanner, t: nat, used: nat)
    requires st.rest != [] && st.rest[0] == '('
    requires ReadAnnotation(st.rest[1..]) == Resolved(t, used) && st.tcur < |st.types|
    ensures StepScan(st) == Next(st.(rest := st.rest[1 + used..], tcur := st.tcur + 1,
      types := st.types[st.tcur := t]))
  {
    AnnotationIsStep(st);
    AnnotationStored(st, t, used);
  }

  lemma ParenStops(st: Scanner)
    requires st.rest != [] && st.rest[0] == '(' && ReadAnnotation(st.rest[1..]) == Rejected
    ensures StepScan(st) == Stop(Fail)
  {
    AnnotationIsStep(st);
    AnnotationRejected(st);
  }

  // AnnotationStep once the annotation has been read, one outcome at a time

  lemma AnnotationRejected(st: Scanner)
    requires st.rest != [] && ReadAnnotation(st.rest[1..]) == Rejected
    ensures AnnotationStep(st) == Stop(Fail)
  {
  }

  lemma AnnotationHazard(st: Scanner, h: Hazard)
    requires st.rest != [] && ReadAnnotation(st.rest[1..]) == Hazardous(h)
    ensures AnnotationStep(st) == Stop(Undefined(h))
  {
  }

  lemma AnnotationOverflow(st: Scanner, t: nat, used: nat)
    requires st.rest != [] && ReadAnnotation(st.rest[1..]) == Resolved(t, used) && st.tcur >= |st.types|
    ensures AnnotationStep(st) == Stop(Undefined(TypeSlotOverflow))
  {
  }

  lemma AnnotationStored(st: Scanner, t: nat, used: nat)
    requires st.rest != [] && ReadAnnotation(st.rest[1..]) == Resolved(t, used) && st.tcur < |st.types|
    ensures AnnotationStep(st) == Next(st.(rest := st.rest[1 + used..], tcur := st.tcur + 1,
                                           types := st.types[st.tcur := t]))
  {
  }

  lemma AnnotationIsStep(st: Scanner)
    requires st.rest != [] && st.rest[0] == '('
    ensures StepScan(st) == AnnotationStep(st)
  {
  }

  lemma Unfold(n: nat, st: Scanner)
    requires st.rest != [] && st.slot < n && StepScan(st).Next?
    ensures Scan(n, st) == Scan(n, StepScan(st).next)
  {
  }

  /** Runs the outer loop until the input ends (`*p_curr_vars == '\0'`), `n`
      names are closed, or an annotation stops the scan. */
  function Scan(n: nat, st: Scanner): (r: (Status, Scanner))
    ensures |r.1.table| == |st.table| && |r.1.types| == |st.types|
    decreases |st.rest|
  {
    if st.rest == [] || st.slot >= n then (Ok, st)
    else match StepScan(st)
      case Stop(status) => (status, st)
      case Next(nx) => Scan(n, nx)
  }

  /** What the scan never touches: at most `n` names are closed and closed
      rows are never written again; a result of 1 means the input ended or `n`
      names were closed; type entries are written only from the cursor on. */
  lemma {:induction false} ScanKeeps(n: nat, st: Scanner)
    ensures var r := Scan(n, st);
      && st.slot <= r.1.slot && st.tcur <= r.1.tcur
      && (st.slot <= n ==> r.1.slot <= n)
      && (r.0 == Ok ==> r.1.rest == [] || r.1.slot >= n)
      && (forall j | 0 <= j < st.slot && j < |st.table| :: r.1.table[j] == st.table[j])
      && (forall k | 0 <= k < |st.types| && (k < st.tcur || r.1.tcur <= k) :: r.1.types[k] == st.types[k])
    decreases |st.rest|
  {
    if st.rest != [] && st.slot < n && StepScan(st).Next? {
      var nx := StepScan(st).next;
      StepKept(st);
      ScanKeeps(n, nx);
      KeptTrans(st, nx, Scan(n, nx).1);
    }
  }

  /** `b` is a later state than `a`: the counters have not gone back, and the
      closed rows and the type entries outside [a.tcur, b.tcur) are as they were. */
  predicate Kept(a: Scanner, b: Scanner) {
    && a.slot <= b.slot && a.tcur <= b.tcur
    && (forall j | 0 <= j < a.slot && j < |a.table| :: j < |b.table| && b.table[j] == a.table[j])
    && (forall k | 0 <= k < |a.types| && (k < a.tcur || b.tcur <= k) :: k < |b.types| && b.types[k] == a.types[k])
  }

  lemma KeptTrans(a: Scanner, b: Scanner, c: Scanner)
    requires Kept(a, b) && Kept(b, c)
    ensures Kept(a, c)
  {
  }

  /** One iteration closes at most one name and keeps what Kept keeps. */
  lemma StepKept(st: Scanner)
    requires st.rest != [] && StepScan(st).Next?
    ensures Kept(st, StepScan(st).next) && StepScan(st).next.slot <= st.slot + 1
  {
    var c := st.rest[0];
    if !IsSeparator(c) && c == '(' {
      assert StepScan(st) == AnnotationStep(st);
    } else if !IsSeparator(c) && st.letters + 1 == MaxVarNameLen {
      assert StepScan(st).next == CapName(st);
    }
  }

  /** Inv holds when the scan ends: every closed row holds a stored name and
      every written type index is in the table. */
  lemma {:induction false} ScanKeepsInv(n: nat, st: Scanner)
    requires Inv(n, st)
    ensures Inv(n, Scan(n, st).1)
    decreases |st.rest|
  {
    if st.rest != [] && st.slot < n && StepScan(st).Next? {
      StepKeepsInv(n, st);
      ScanKeepsInv(n, StepScan(st).next);
    }
  }

  /** What `parse_vars` returns and leaves in the two arrays, given their
      contents on entry. */
  function ParseSpec(s: string, n: nat, table: seq<seq<char>>, types: seq<nat>): (r: (Status, seq<seq<char>>, seq<nat>))
    ensures |r.1| == |table| && |r.2| == |types|
    ensures s == [] || n == 0 ==> r == (Ok, table, types)
  {
    var r := Scan(n, Start(s, table, types));
    (r.0, r.1.table, r.1.types)
  }

  /** The name table `advassert_` hands to the scan: `calloc(nVars, sizeof(char [MAX_VAR_NAME_LEN]))`, every row zeroed. */
  function ZeroTable(n: nat): (t: seq<seq<char>>)
    ensures |t| == n && forall j | 0 <= j < n :: t[j] == Zeros(MaxVarNameLen)
  {
    seq(n, _ => Zeros(MaxVarNameLen))
  }

  function Rows(a: array2<char>): (t: seq<seq<char>>)
    reads a
    ensures |t| == a.Length0
    ensures forall i | 0 <= i < a.Length0 :: |t[i]| == a.Length1
    ensures forall i, j | 0 <= i < a.Length0 && 0 <= j < a.Length1 :: t[i][j] == a[i, j]
  {
    seq(a.Length0, i requires 0 <= i < a.Length0 reads a =>
      seq(a.Length1, j requires 0 <= j < a.Length1 reads a => a[i, j]))
  }

  lemma SameTable(a: seq<seq<char>>, b: seq<seq<char>>)
    requires |a| == |b|
    requires forall i | 0 <= i < |a| :: |a[i]| == |b[i]|
    requires forall i, j | 0 <= i < |a| && 0 <= j < |a[i]| :: a[i][j] == b[i][j]
    ensures a == b
  {
    forall i | 0 <= i < |a| ensures a[i] == b[i] {
    }
  }

  /** `*p_curr_parsed_vars = c`: one store into the name table. */
  method Store(a: array2<char>, i: nat, j: nat, c: char)
    requires i < a.Length0 && j < a.Length1
    modifies a
    ensures Rows(a) == Put(old(Rows(a)), i, j, c)
  {
    a[i, j] := c;
    SameTable(Rows(a), Put(old(Rows(a)), i, j, c));
  }

  /** Lines 198-199: the index of the first non-isspace character at or after `from`. */
  method SkipLeadingSpace(s: string, from: nat) returns (p: nat)
    requires from <= |s|
    ensures from <= p <= |s| && s[p..] == SkipSpace(s[from..])
  {
    p := from;
    while p < |s| && IsSpace(s[p])
      invariant from <= p <= |s|
      invariant SkipSpace(s[p..]) == SkipSpace(s[from..])
    {
      assert s[p..][1..] == s[p + 1..];
      p := p + 1;
    }
  }

  /** Line 260: the index of the first separator at or after `from`, or |s|. */
  method SkipToSeparator(s: string, from: nat) returns (p: nat)
    requires from <= |s|
    ensures from <= p <= |s| && s[p..] == SkipWord(s[from..])
  {
    p := from;
    while p < |s| && !IsSeparator(s[p])  // *p != ',' && !isspace(*p) && *p != '\0'
      invariant from <= p <= |s|
      invariant SkipWord(s[p..]) == SkipWord(s[from..])
    {
      SkipWordLetter(s, p);
      p := p + 1;
    }
  }

  /** The skip passes over one character that is not a separator. */
  lemma SkipWordLetter(s: string, p: nat)
    requires p < |s| && !IsSeparator(s[p])
    ensures SkipWord(s[p..]) == SkipWord(s[p + 1..])
  {
    assert s[p..][1..] == s[p + 1..];
  }

  /** Lines 206-217: copies the type text starting at `start` into `buf` up to
      the closing ')'. On success `p` is the index of the ')'. */
  method CopyTypeText(s: string, start: nat, buf: array<char>) returns (c: Copy, p: nat)
    requires start <= |s| && buf.Length == MaxTypeNameLen
    modifies buf
    ensures c == CopyType(s[start..], 0)
    ensures c.Closed? ==> p == start + c.len < |s| && s[p] == ')' && buf[..c.len] == s[start..p]
  {
    ghost var body := s[start..];
    var ind := 0;
    p := start;
    while true
      invariant p == start + ind && ind <= |body| && ind < TypeCap
      invariant CopyType(body, ind) == CopyType(body, 0)
      invariant buf[..ind] == body[..ind]
      decreases |body| - ind
    {
      if p < |s| && s[p] == ')' {
        break;
      }
      buf[ind] := if p < |s| then s[p] else '\0';  // *p is the terminator when p == |s|
      ind, p := ind + 1, p + 1;
      if ind == TypeCap {
        return TooLong, p;
      }
      if p > |s| {
        // the loop test would now read the character after the terminator
        return PastEnd, p;
      }
    }
    c := Closed(ind);
  }

  /** Line 223: clears trailing ' ' in `buf[..len]` and gives the index of the
      last character kept. */
  method TrimTrailingSpaces(buf: array<char>, len: nat) returns (last: nat)
    requires 0 < len <= buf.Length && buf[0] != ' '
    modifies buf
    ensures last < len && buf[..last + 1] == TrimSpaces(old(buf[..len]))
  {
    ghost var text := buf[..len];
    last := len - 1;
    while buf[last] == ' '
      invariant 0 <= last < len
      invariant buf[0] == text[0]
      invariant buf[..last + 1] == text[..last + 1]
      invariant TrimSpaces(text) == TrimSpaces(buf[..last + 1])
      decreases last
    {
      ghost var before := buf[..last + 1];
      buf[last] := '\0';
      last := last - 1;
      assert buf[..last + 1] == before[..|before| - 1];
    }
  }

  /** Lines 233-236: the position of `buf[..len]` in the table, or
      NSupportedTypes when it is not there. */
  method FindType(buf: array<char>, len: nat) returns (typeInd: nat)
    requires len <= buf.Length
    ensures typeInd <= NSupportedTypes
    ensures typeInd < NSupportedTypes <==> buf[..len] in TypeNames
    ensures typeInd < NSupportedTypes ==> Lookup(buf[..len]) == Some(typeInd)
  {
    // buf[..len] is the C string in the buffer, so strcmp(...) == 0 is equality
    typeInd := 0;
    while typeInd < NSupportedTypes && buf[..len] != TypeNames[typeInd]
      invariant 0 <= typeInd <= NSupportedTypes
      invariant LookupFrom(buf[..len], typeInd) == Lookup(buf[..len])
    {
      typeInd := typeInd + 1;
    }
    LookupMisses(buf[..len]);
  }

  /** Lines 220-243: terminates the copied text, trims it, rewrites a pointer
      annotation and looks the text up; NSupportedTypes means "not found". */
  method ResolveBuffer(buf: array<char>, len: nat) returns (typeInd: nat)
    requires 0 < len < buf.Length && buf.Length == MaxTypeNameLen && buf[0] != ' '
    modifies buf
    ensures typeInd <= NSupportedTypes
    ensures typeInd < NSupportedTypes <==> ResolveText(TrimSpaces(old(buf[..len]))).Some?
    ensures typeInd < NSupportedTypes ==> ResolveText(TrimSpaces(old(buf[..len]))) == Some(typeInd)
  {
    ghost var text := buf[..len];
    buf[len] := '\0';
    assert buf[..len] == text;
    var last := TrimTrailingSpaces(buf, len);
    ghost var trimmed := TrimSpaces(text);
    var n := last + 1;
    if buf[last] == '*' {
      // strcpy(buf_type, AdvAssertPointer)
      for k := 0 to |PointerName|
        invariant buf[..k] == PointerName[..k]
      {
        buf[k] := PointerName[k];
      }
      buf[|PointerName|] := '\0';
      n := |PointerName|;
    }
    assert buf[..n] == PointerRewrite(trimmed);
    typeInd := FindType(buf, n);
  }

  /** Lines 206-243: reads the type text that starts at `start` up to its ')'
      and resolves it. */
  method ReadTypeBody(s: string, start: nat) returns (r: TypeRead)
    requires '\0' !in s && start <= |s|
    requires start < |s| ==> !IsSpace(s[start])
    ensures r == AnnotationBody(s[start..])
  {
    var buf := new char[MaxTypeNameLen];
    var copied, p := CopyTypeText(s, start, buf);
    if copied == TooLong {
      return Rejected;
    }
    if copied == PastEnd {
      return Hazardous(ReadPastEnd);
    }
    var ind := copied.len;
    if ind == 0 {
      // `--ind_buf` on an unsigned 0 wraps around before indexing
      return Hazardous(EmptyTypeUnderflow);
    }
    ghost var text := s[start..p];
    assert buf[..ind] == text && s[start..][..ind] == text;
    assert buf[..ind][0] == buf[0] && text[0] == s[start];
    var typeInd := ResolveBuffer(buf, ind);
    if typeInd == NSupportedTypes {
      return Rejected;
    }
    r := Resolved(typeInd, ind + 1);
  }

  /** Lines 194-243: reads one "(type)" annotation, `from` being the index
      just after the '('. */
  method ReadType(s: string, from: nat) returns (r: TypeRead)
    requires '\0' !in s && from <= |s|
    ensures r == ReadAnnotation(s[from..])
  {
    var start := SkipLeadingSpace(s, from);
    assert start < |s| ==> s[start..][0] == s[start];
    r := ReadTypeBody(s, start);
    r := Shift(r, start - from);
  }

  /** `*p_curr_parsed_types = type_ind`. */
  method StoreType(types: array<nat>, k: nat, t: nat)
    requires k < types.Length
    modifies types
    ensures types[..] == old(types[..])[k := t]
  {
    types[k] := t;
  }

  /** Lines 191-245: the '(' branch of the outer loop, taken at `pos`; it
      either stops the scan or stores a type index and gives the index after
      the ')'. */
  method Annotation(s: string, pos: nat, types: array<nat>, tcur: nat, ghost st: Scanner)
    returns (stop: bool, status: Status, next: nat)
    requires '\0' !in s && pos < |s| && s[pos] == '(' && st.rest == s[pos..]
    requires st.tcur == tcur <= types.Length && st.types == types[..]
    modifies types
    ensures stop ==> AnnotationStep(st) == Stop(status) && types[..] == old(types[..])
    ensures !stop ==> pos + 1 < next <= |s| && tcur < types.Length
    ensures !stop ==> AnnotationStep(st) == Next(st.(rest := s[next..], tcur := tcur + 1, types := types[..]))
  {
    assert st.rest[0] == '(' && st.rest[1..] == s[pos + 1..];
    var r := ReadType(s, pos + 1);
    match r {
      case Rejected =>
        AnnotationRejected(st);
        return true, Fail, pos;
      case Hazardous(h) =>
        AnnotationHazard(st, h);
        return true, Undefined(h), pos;
      case Resolved(t, used) =>
        if tcur == types.Length {
          AnnotationOverflow(st, t, used);
          return true, Undefined(TypeSlotOverflow), pos;
        }
        AnnotationStored(st, t, used);
        StoreType(types, tcur, t);
        assert st.rest[1 + used..] == s[pos + used + 1..];
        return false, Ok, pos + used + 1;
    }
  }

  /** Lines 177-190: a ',' or isspace character at `pos`; a name in progress
      is terminated and the next row begins. */
  method Separator(s: string, pos: nat, names: array2<char>, isInName: bool, ind: nat, letters: nat,
                   off: nat, ghost st: Scanner)
    returns (isInName': bool, ind': nat, letters': nat, off': nat)
    requires pos < |s| && IsSeparator(s[pos]) && off == Cursor(letters)
    requires st == Scanner(s[pos..], isInName, ind, letters, Rows(names), st.tcur, st.types)
    requires isInName ==> ind < names.Length0 && off < names.Length1
    modifies names
    ensures off' == Cursor(letters')
    ensures StepScan(st) == Next(Scanner(s[pos + 1..], isInName', ind', letters', Rows(names), st.tcur, st.types))
  {
    assert st.rest[0] == s[pos] && st.rest[1..] == s[pos + 1..];
    if isInName {
      CloseStep(st);
      Store(names, ind, off, '\0');
      return false, ind + 1, 0, 0;
    }
    SeparatorStep(st);
    return isInName, ind, letters, off;
  }

  /** Lines 247-273: a name character at `pos` is stored at the row's
      cursor; the MAX_VAR_NAME_LEN-th letter ends the name's storage and the
      rest of the word is skipped. Gives the index of the next character to
      scan. */
  method Letter(s: string, pos: nat, names: array2<char>, ind: nat, letters: nat, off: nat,
                ghost st: Scanner)
    returns (pos': nat, letters': nat, off': nat)
    requires pos < |s| && IsNameChar(s[pos]) && off == Cursor(letters) && letters < MaxVarNameLen
    requires st == Scanner(s[pos..], st.inName, ind, letters, Rows(names), st.tcur, st.types)
    requires ind < names.Length0 && names.Length1 == MaxVarNameLen
    modifies names
    ensures pos < pos' <= |s| && off' == Cursor(letters')
    ensures StepScan(st) == Next(Scanner(s[pos'..], true, ind, letters', Rows(names), st.tcur, st.types))
  {
    assert st.rest[0] == s[pos] && st.rest[1..] == s[pos + 1..];
    Store(names, ind, off, s[pos]);
    if letters + 1 == MaxVarNameLen {
      TruncateStep(st);
      pos' := SkipToSeparator(s, pos);
      if pos' == |s| {
        Store(names, ind, off, '\0');
      }
      return pos', MaxVarNameLen, off;
    }
    LetterStep(st);
    return pos + 1, letters + 1, off + 1;
  }

  /** `parse_vars` over caller-owned arrays: `names` has one row of
      MAX_VAR_NAME_LEN characters per variable, `types` receives type indices. */
  method ParseVars(s: string, n: nat, names: array2<char>, types: array<nat>) returns (status: Status)
    requires '\0' !in s
    requires names.Length0 == n && names.Length1 == MaxVarNameLen
    modifies names, types
    ensures (status, Rows(names), types[..]) == ParseSpec(s, n, old(Rows(names)), old(types[..]))
  {
    var pos: nat, isInName: bool, ind: nat, letters: nat, off: nat, tcur: nat := 0, false, 0, 0, 0, 0;
    ghost var spec := Scan(n, Start(s, Rows(names), types[..]));
    ghost var cur := Start(s, Rows(names), types[..]);
    while pos < |s| && ind < n  // *p_curr_vars != '\0' && ind_curr_parsed_vars < nVars
      invariant pos <= |s| && off == Cursor(letters)
      invariant cur == Scanner(s[pos..], isInName, ind, letters, Rows(names), tcur, types[..])
      invariant Inv(n, cur) && Scan(n, cur) == spec
      decreases |s| - pos
    {
      ghost var st := cur;
      StepAgrees(n, st);
      var c := s[pos];
      if c == ',' || IsSpace(c) {
        isInName, ind, letters, off := Separator(s, pos, names, isInName, ind, letters, off, st);
        pos := pos + 1;
      } else if c == '(' {
        AnnotationIsStep(st);
        var stop, status', next := Annotation(s, pos, types, tcur, st);
        if stop {
          return status';
        }
        tcur, pos := tcur + 1, next;
      } else {
        pos, letters, off := Letter(s, pos, names, ind, letters, off, st);
        isInName := true;
      }
      cur := StepScan(st).next;
    }
    return Ok;
  }

  /** Scan takes one step at a time: the loop body of ParseVars may be checked
      against StepScan alone. */
  lemma StepAgrees(n: nat, st: Scanner)
    requires Inv(n, st) && st.rest != [] && st.slot < n
    ensures StepScan(st).Next? ==> Inv(n, StepScan(st).next)
    ensures StepScan(st).Next? ==> Scan(n, st) == Scan(n, StepScan(st).next)
    ensures StepScan(st).Stop? ==> Scan(n, st) == (StepScan(st).status, st)
  {
    if StepScan(st).Next? {
      StepKeepsInv(n, st);
    }
  }
}
