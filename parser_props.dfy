/** Properties of the `parse_vars` scan (module Parser): what the copy loop
    and one annotation produce, which texts the skip and trim loops remove, and
    what a whole list "(type) name, (type) name, ..." leaves in the name table
    and the type array. */
module ParserProps {
  import opened CRuntime
  import opened Registry
  import opened Parser

  /** The copy loop ends in one of three ways, decided by where the first ')'
      lies among the characters it may take. */
  lemma {:induction false} CopyTypeCases(body: string, k: nat)
    requires k <= |body| && k < TypeCap
    ensures CopyType(body, k).Closed? <==> exists m | k <= m < |body| && m < TypeCap :: body[m] == ')'
    ensures CopyType(body, k).Closed? ==> forall i | k <= i < CopyType(body, k).len :: body[i] != ')'
    ensures CopyType(body, k) == TooLong <==>
      TypeCap - 1 <= |body| && forall i | k <= i < |body| && i < TypeCap :: body[i] != ')'
    ensures CopyType(body, k) == PastEnd <==>
      |body| < TypeCap - 1 && forall i | k <= i < |body| :: body[i] != ')'
    decreases |body| - k
  {
    if k < |body| && body[k] == ')' {
    } else if k + 1 == TypeCap {
    } else if k == |body| {
    } else {
      CopyTypeCases(body, k + 1);
    }
  }

  /** The outcome of the text after '(' once leading whitespace is skipped:
      `()` underflows the buffer index, a text without ')' that is shorter than
      the buffer runs off the end of the string, and a resolved type reports
      the characters up to its first ')'. */
  lemma AnnotationOutcomes(body: string)
    requires body == [] || !IsSpace(body[0])
    ensures AnnotationBody(body) == Hazardous(EmptyTypeUnderflow) <==> body != [] && body[0] == ')'
    ensures AnnotationBody(body) == Hazardous(ReadPastEnd) <==> |body| < TypeCap - 1 && ')' !in body
    ensures AnnotationBody(body).Resolved? ==>
      var m := AnnotationBody(body).used - 1;
      m < |body| && body[m] == ')' && ')' !in body[..m] &&
      ResolveText(TrimSpaces(body[..m])) == Some(AnnotationBody(body).index)
  {
    CopyTypeCases(body, 0);
    var c := CopyType(body, 0);
    if c.Closed? {
      assert forall i | 0 <= i < c.len :: body[..c.len][i] == body[i];
    }
    if |body| < TypeCap - 1 && ')' !in body {
      assert forall i | 0 <= i < |body| :: body[i] != ')';
    }
    if c == PastEnd {
      assert forall i | 0 <= i < |body| :: body[i] != ')';
    }
  }

  /** A type text that runs to MAX_TYPE_NAME_LEN - 1 characters without a ')'
      makes `parse_vars` return 0, even when the ')' follows later; blanks
      inside the text count like any other character. */
  lemma LongTypeRejected(st: Scanner)
    requires |st.rest| > TypeCap && st.rest[0] == '('
    requires !IsSpace(st.rest[1]) && forall i | 1 <= i <= TypeCap :: st.rest[i] != ')'
    ensures StepScan(st) == Stop(Fail)
  {
    var after := st.rest[1..];
    assert after[0] == st.rest[1];
    assert SkipSpace(after) == after;
    CopyTypeCases(after, 0);
    assert forall i | 0 <= i < TypeCap :: after[i] == st.rest[i + 1];
    assert CopyType(after, 0) == TooLong;
  }

  lemma SkipNone(after: string)
    requires after != [] && !IsSpace(after[0])
    ensures SkipSpace(after) == after
  {
  }

  lemma CopyToParen(t: string, more: string)
    requires 0 < |t| < TypeCap && ')' !in t
    ensures CopyType(t + ")" + more, 0) == Closed(|t|)
  {
    var after := t + ")" + more;
    assert after[|t|] == ')';
    assert forall i | 0 <= i < |t| :: after[i] == t[i];
    CopyTypeCases(after, 0);
  }

  lemma AnnotationOfText(t: string, more: string)
    requires 0 < |t| < TypeCap && !IsSpace(t[0]) && ')' !in t
    ensures ReadAnnotation(t + ")" + more) ==
      match ResolveText(TrimSpaces(t))
      case None => Rejected
      case Some(i) => Resolved(i, |t| + 1)
  {
    var after := t + ")" + more;
    SkipNone(after);
    CopyToParen(t, more);
    assert after[..|t|] == t;
  }

  lemma UnresolvedStops(st: Scanner, t: string, more: string)
    requires 0 < |t| < TypeCap && !IsSpace(t[0]) && ')' !in t
    requires st.rest != [] && st.rest[0] == '(' && st.rest[1..] == t + ")" + more
    requires ResolveText(TrimSpaces(t)) == None
    ensures StepScan(st) == Stop(Fail)
  {
    AnnotationOfText(t, more);
    ParenStops(st);
  }

  /** A type text that is not in the table and does not end in '*' makes
      `parse_vars` return 0. */
  lemma UnknownTypeRejected(st: Scanner, t: string, more: string)
    requires 0 < |t| < TypeCap && !IsSpace(t[0]) && ')' !in t
    requires st.rest != [] && st.rest[0] == '(' && st.rest[1..] == t + ")" + more
    requires TrimSpaces(t) == [] || TrimSpaces(t)[|TrimSpaces(t)| - 1] != '*'
    requires TrimSpaces(t) !in TypeNames
    ensures StepScan(st) == Stop(Fail)
  {
    ResolveExact(TrimSpaces(t), 0);
    UnresolvedStops(st, t, more);
  }

  /** The trailing trim removes ' ' only: what it drops is all ' ', and a
      text ending in a tab or newline is kept whole. */
  lemma {:induction false} TrimRemovesBlanksOnly(t: string)
    ensures forall i | |TrimSpaces(t)| <= i < |t| :: t[i] == ' '
    ensures t != [] && t[|t| - 1] != ' ' ==> TrimSpaces(t) == t
    decreases |t|
  {
    if t != [] && t[|t| - 1] == ' ' {
      TrimRemovesBlanksOnly(t[..|t| - 1]);
    }
  }

  /** The leading skip, unlike the trim, removes every isspace character. */
  lemma {:induction false} SkipRemovesWhitespaceOnly(t: string)
    ensures forall i | 0 <= i < |t| - |SkipSpace(t)| :: IsSpace(t[i])
    decreases |t|
  {
    if t != [] && IsSpace(t[0]) {
      SkipRemovesWhitespaceOnly(t[1..]);
      assert forall i | 1 <= i < |t| - |SkipSpace(t)| :: t[i] == t[1..][i - 1];
    }
  }

  /** The skip after an over-long name stops at the first separator, the
      word's own letters being name characters. */
  lemma {:induction false} SkipWordStopsAtSeparator(w: string, tail: string)
    requires forall i | 0 <= i < |w| :: IsNameChar(w[i])
    requires tail == [] || IsSeparator(tail[0])
    ensures SkipWord(w + tail) == tail
    decreases |w|
  {
    if w != [] {
      assert (w + tail)[1..] == w[1..] + tail;
      SkipWordStopsAtSeparator(w[1..], tail);
    }
  }

  // ---------------------------------------------------------------------
  // A rendered declaration list

  /** One variable of the list: its type, written as the table's text for
      that type, and its name. */
  datatype Decl = Decl(index: nat, name: string)

  predicate ValidName(w: string) {
    w != [] && forall i | 0 <= i < |w| :: IsNameChar(w[i])
  }

  predicate ValidDecl(d: Decl) {
    d.index < NSupportedTypes && ValidName(d.name)
  }

  /** "(type) name" */
  function Item(d: Decl): string
    requires d.index < NSupportedTypes
  {
    "(" + TypeNames[d.index] + ") " + d.name
  }

  /** Every table text, closed by ')', resolves to its own position. */
  lemma CanonicalAnnotation(i: nat, more: string)
    requires i < NSupportedTypes
    ensures ReadAnnotation(TypeNames[i] + ")" + more) == Resolved(i, |TypeNames[i]| + 1)
  {
    var t := TypeNames[i];
    assert 0 < |t| < TypeCap && !IsSpace(t[0]) && ')' !in t && t[|t| - 1] != ' ';
    TrimRemovesBlanksOnly(t);
    if i == VOID_PTR {
      ResolvePointer(t);
    } else {
      assert t[|t| - 1] != '*';
      ResolveExact(t, i);
    }
    AnnotationOfText(t, more);
  }

  /** The list as the macro stringifies it, entries separated by ", ". */
  function Render(ds: seq<Decl>): string
    requires forall i | 0 <= i < |ds| :: ValidDecl(ds[i])
  {
    if ds == [] then [] else RenderOnto(ds, [])
  }

  /** A non-empty rendered list followed by the text `tail`. */
  function RenderOnto(ds: seq<Decl>, tail: string): string
    requires ds != [] && forall i | 0 <= i < |ds| :: ValidDecl(ds[i])
    decreases |ds|
  {
    assert ValidDecl(ds[0]);
    Item(ds[0]) + (if |ds| == 1 then tail else ", " + RenderOnto(ds[1..], tail))
  }

  /** The name a row ends up holding: at most MAX_VAR_NAME_LEN - 1 letters. */
  function Truncate(w: string): string {
    if |w| <= NameCap then w else w[..NameCap]
  }

  /** name_letter_cnt once the whole word has been read. */
  function Letters(w: string): nat {
    if |w| <= NameCap then |w| else MaxVarNameLen
  }

  /** A row read back as a C string gives what was written at its start. */
  lemma CStrOfPad(x: string)
    requires |x| < MaxVarNameLen && '\0' !in x
    ensures CStr(Pad(x)) == x
  {
    var row := Pad(x);
    assert row[..|x|] == x;
    assert forall i | 0 <= i < |x| :: row[i] != '\0';
    assert row[|x|] == '\0';
  }

  // Sequence facts, each kept apart from the scan so that its proof stays small

  lemma PadGrow(w: string, k: nat)
    requires k < |w| <= NameCap
    ensures Pad(w[..k])[k := w[k]] == Pad(w[..k + 1])
  {
    var a, b := Pad(w[..k])[k := w[k]], Pad(w[..k + 1]);
    assert forall i | 0 <= i < |a| :: a[i] == b[i];
  }

  lemma PadEnd(v: string)
    requires |v| < MaxVarNameLen
    ensures Pad(v)[|v| := '\0'] == Pad(v)
  {
  }

  lemma PadOverwrite(w: string)
    requires NameCap < |w|
    ensures Pad(w[..NameCap])[NameCap := w[NameCap]][NameCap := '\0'] == Pad(w[..NameCap])
  {
  }

  lemma LettersSplit(w: string, k: nat, tail: string)
    requires k < |w|
    ensures (w[k..] + tail)[0] == w[k] && (w[k..] + tail)[1..] == w[k + 1..] + tail
  {
  }

  lemma NameSplit(w: string, tail: string)
    requires w != []
    ensures var v := Truncate(w);
      0 < |v| <= NameCap && v == w[..|v|] && w[..0] == [] && w + tail == v[0..] + (w[|v|..] + tail)
  {
    var v := Truncate(w);
    assert w == v + w[|v|..];
  }

  lemma ItemSplit(d: Decl, tail: string)
    requires d.index < NSupportedTypes
    ensures var x := Item(d) + tail; var t := TypeNames[d.index]; var more := " " + (d.name + tail);
      && x != [] && x[0] == '(' && x[1..] == t + ")" + more
      && |x| >= |t| + 2 && x[|t| + 2..] == more
      && more[0] == ' ' && more[1..] == d.name + tail
  {
    var t := TypeNames[d.index];
    var x := Item(d) + tail;
    var more := " " + (d.name + tail);
    assert x == ['('] + (t + ")" + more);
    assert (t + ")" + more)[|t| + 1..] == more;
  }

  lemma JoinSplit(x: string, r: string, tail: string)
    ensures (x + (", " + r)) + tail == x + (", " + (r + tail))
  {
  }

  /** Text after a rendered list may be appended to its last entry. */
  lemma {:induction false} RenderThenText(ds: seq<Decl>, tail: string)
    requires ds != [] && forall i | 0 <= i < |ds| :: ValidDecl(ds[i])
    ensures Render(ds) + tail == RenderOnto(ds, tail)
    decreases |ds|
  {
    var x := Item(ds[0]);
    if |ds| == 1 {
      assert RenderOnto(ds, []) == x + [] && RenderOnto(ds, tail) == x + tail;
    } else {
      RenderThenText(ds[1..], tail);
      assert RenderOnto(ds, []) == x + (", " + Render(ds[1..]));
      JoinSplit(x, Render(ds[1..]), tail);
    }
  }

  /** The first entry of a rendered list, and what follows it. */
  lemma RenderHead(ds: seq<Decl>, tail: string)
    requires ds != [] && forall i | 0 <= i < |ds| :: ValidDecl(ds[i])
    ensures RenderOnto(ds, tail) == Item(ds[0]) + (if |ds| == 1 then tail else ", " + RenderOnto(ds[1..], tail))
  {
  }

  lemma CommaSplit(r: string)
    ensures (", " + r)[0] == ',' && (", " + r)[1..] == " " + r && (" " + r)[1..] == r
  {
  }

  // The entries of a list, one at a time

  /** Reading letters w[k..] into the current row. */
  lemma {:induction false} ScanLetters(n: nat, st: Scanner, w: string, k: nat, tail: string)
    requires k <= |w| <= NameCap && st.slot < n && |st.table| == n
    requires forall i | 0 <= i < |w| :: IsNameChar(w[i])
    requires st.rest == w[k..] + tail && st.letters == k && (st.inName <==> k > 0)
    requires st.table[st.slot] == Pad(w[..k])
    ensures Scan(n, st) == Scan(n, st.(rest := tail, inName := |w| > 0, letters := |w|,
      table := st.table[st.slot := Pad(w)]))
    decreases |w| - k
  {
    if k == |w| {
      assert w[..k] == w && w[k..] == [] && st.rest == tail;
      assert st.table[st.slot := Pad(w)] == st.table;
    } else {
      LettersSplit(w, k, tail);
      LetterStep(st);
      Unfold(n, st);
      PadGrow(w, k);
      var nx := st.(rest := w[k + 1..] + tail, inName := true, letters := k + 1,
        table := st.table[st.slot := Pad(w[..k + 1])]);
      assert StepScan(st).next == nx;
      ScanLetters(n, nx, w, k + 1, tail);
      assert nx.table[st.slot := Pad(w)] == st.table[st.slot := Pad(w)];
    }
  }

  /** The separator (or the end of the input) after a name of at most
      MAX_VAR_NAME_LEN - 1 letters. */
  lemma ShortNameEnd(n: nat, st: Scanner, v: string, tail: string)
    requires st.rest == tail && (tail == [] || IsSeparator(tail[0]))
    requires st.inName && st.letters == |v| < MaxVarNameLen && st.slot < n && |st.table| == n
    requires st.table[st.slot] == Pad(v)
    ensures tail == [] ==> Scan(n, st) == (Ok, st)
    ensures tail != [] ==> Scan(n, st) == Scan(n, st.(rest := tail[1..], inName := false, letters := 0, slot := st.slot + 1))
  {
    if tail != [] {
      CloseStep(st);
      Unfold(n, st);
      PadEnd(v);
      assert Put(st.table, st.slot, Cursor(st.letters), '\0') == st.table;
    }
  }

  /** The MAX_VAR_NAME_LEN-th letter of a longer name, the skipped rest of the
      word, and the separator (or the end of the input) after it. */
  lemma LongNameEnd(n: nat, st: Scanner, w: string, tail: string)
    requires NameCap < |w| && forall i | 0 <= i < |w| :: IsNameChar(w[i])
    requires st.rest == w[NameCap..] + tail && (tail == [] || IsSeparator(tail[0]))
    requires st.inName && st.letters == NameCap && st.slot < n && |st.table| == n
    requires st.table[st.slot] == Pad(w[..NameCap])
    ensures tail == [] ==> Scan(n, st) == (Ok, st.(rest := [], letters := MaxVarNameLen))
    ensures tail != [] ==> Scan(n, st) == Scan(n, st.(rest := tail[1..], inName := false, letters := 0, slot := st.slot + 1))
  {
    LettersSplit(w, NameCap, tail);
    TruncateStep(st);
    SkipWordStopsAtSeparator(w[NameCap..], tail);
    Unfold(n, st);
    PadOverwrite(w);
    var row := Pad(w[..NameCap])[NameCap := w[NameCap]];
    var s1 := StepScan(st).next;
    assert s1.rest == tail && s1.letters == MaxVarNameLen && s1.inName;
    if tail == [] {
      assert s1.table == st.table;
    } else {
      assert s1.table == st.table[st.slot := row];
      CloseStep(s1);
      Unfold(n, s1);
      assert Put(s1.table, st.slot, Cursor(s1.letters), '\0') == st.table;
    }
  }

  /** Reading the name of an entry and the separator after it, if any. */
  lemma EntryName(n: nat, st: Scanner, w: string, tail: string)
    requires ValidName(w) && st.rest == w + tail && (tail == [] || IsSeparator(tail[0]))
    requires !st.inName && st.letters == 0 && st.slot < n && |st.table| == n
    requires st.table[st.slot] == Zeros(MaxVarNameLen)
    ensures var table := st.table[st.slot := Pad(Truncate(w))];
      if tail == [] then Scan(n, st) == (Ok, st.(rest := [], inName := true, letters := Letters(w), table := table))
      else Scan(n, st) == Scan(n, st.(rest := tail[1..], slot := st.slot + 1, table := table))
  {
    var v := Truncate(w);
    NameSplit(w, tail);
    assert Pad(w[..0]) == Zeros(MaxVarNameLen);
    assert forall i | 0 <= i < |v| :: IsNameChar(v[i]);
    ScanLetters(n, st, v, 0, w[|v|..] + tail);
    var s1 := st.(rest := w[|v|..] + tail, inName := true, letters := |v|, table := st.table[st.slot := Pad(v)]);
    if |w| <= NameCap {
      assert w[|v|..] + tail == tail;
      ShortNameEnd(n, s1, v, tail);
    } else {
      LongNameEnd(n, s1, w, tail);
    }
  }

  /** At the start of an entry: no name in progress, the slot's row still
      zero-filled. */
  predicate AtEntry(n: nat, st: Scanner) {
    !st.inName && st.letters == 0 && st.slot < n && |st.table| == n &&
    st.table[st.slot] == Zeros(MaxVarNameLen) && st.tcur < |st.types|
  }

  /** After the annotation of an entry: the type is stored and the name is
      next. */
  lemma EntryType(n: nat, st: Scanner, d: Decl, tail: string)
    requires AtEntry(n, st) && ValidDecl(d) && st.rest == Item(d) + tail
    ensures Scan(n, st) == Scan(n, st.(rest := d.name + tail, tcur := st.tcur + 1,
      types := st.types[st.tcur := d.index]))
  {
    var t := TypeNames[d.index];
    var more := " " + (d.name + tail);
    ItemSplit(d, tail);
    CanonicalAnnotation(d.index, more);
    ParenStep(st, d.index, |t| + 1);
    Unfold(n, st);
    var s1 := st.(rest := more, tcur := st.tcur + 1, types := st.types[st.tcur := d.index]);
    assert StepScan(st).next == s1;
    SeparatorStep(s1);
    Unfold(n, s1);
  }

  /** One entry: its type, its name and the separator after it, if any. */
  lemma Entry(n: nat, st: Scanner, d: Decl, tail: string)
    requires AtEntry(n, st) && ValidDecl(d) && st.rest == Item(d) + tail
    requires tail == [] || IsSeparator(tail[0])
    ensures var s1 := st.(tcur := st.tcur + 1, types := st.types[st.tcur := d.index],
                          table := st.table[st.slot := Pad(Truncate(d.name))]);
      if tail == [] then Scan(n, st) == (Ok, s1.(rest := [], inName := true, letters := Letters(d.name)))
      else Scan(n, st) == Scan(n, s1.(rest := tail[1..], slot := st.slot + 1))
  {
    var s1 := st.(rest := d.name + tail, tcur := st.tcur + 1, types := st.types[st.tcur := d.index]);
    EntryType(n, st, d, tail);
    EntryName(n, s1, d.name, tail);
    var table := st.table[st.slot := Pad(Truncate(d.name))];
    var s2 := st.(tcur := st.tcur + 1, types := st.types[st.tcur := d.index], table := table);
    if tail == [] {
      assert s1.(rest := [], inName := true, letters := Letters(d.name), table := table)
          == s2.(rest := [], inName := true, letters := Letters(d.name));
    } else {
      assert s1.(rest := tail[1..], slot := st.slot + 1, table := table) == s2.(rest := tail[1..], slot := st.slot + 1);
    }
  }

  // The whole list

  /** The name table once the rows from `slot` on have received the names of `ds`. */
  function NamesAfter(table: seq<seq<char>>, slot: nat, ds: seq<Decl>): (r: seq<seq<char>>)
    ensures |r| == |table|
    decreases |ds|
  {
    if ds == [] || |table| <= slot then table
    else NamesAfter(table[slot := Pad(Truncate(ds[0].name))], slot + 1, ds[1..])
  }

  /** The type array once the entries from `tcur` on have received the types of `ds`. */
  function TypesAfter(types: seq<nat>, tcur: nat, ds: seq<Decl>): (r: seq<nat>)
    ensures |r| == |types|
    decreases |ds|
  {
    if ds == [] || |types| <= tcur then types
    else TypesAfter(types[tcur := ds[0].index], tcur + 1, ds[1..])
  }

  lemma AfterStep(table: seq<seq<char>>, slot: nat, types: seq<nat>, tcur: nat, ds: seq<Decl>)
    requires ds != [] && slot < |table| && tcur < |types|
    ensures NamesAfter(table, slot, ds) == NamesAfter(table[slot := Pad(Truncate(ds[0].name))], slot + 1, ds[1..])
    ensures TypesAfter(types, tcur, ds) == TypesAfter(types[tcur := ds[0].index], tcur + 1, ds[1..])
  {
  }

  lemma {:induction false} NamesAfterAt(table: seq<seq<char>>, slot: nat, ds: seq<Decl>)
    requires slot + |ds| <= |table|
    ensures |NamesAfter(table, slot, ds)| == |table|
    ensures forall j | 0 <= j < |table| ::
              NamesAfter(table, slot, ds)[j] ==
              if slot <= j < slot + |ds| then Pad(Truncate(ds[j - slot].name)) else table[j]
    decreases |ds|
  {
    if ds != [] {
      NamesAfterAt(table[slot := Pad(Truncate(ds[0].name))], slot + 1, ds[1..]);
    }
  }

  lemma {:induction false} TypesAfterAt(types: seq<nat>, tcur: nat, ds: seq<Decl>)
    requires tcur + |ds| <= |types|
    ensures |TypesAfter(types, tcur, ds)| == |types|
    ensures forall k | 0 <= k < |types| ::
              TypesAfter(types, tcur, ds)[k] ==
              if tcur <= k < tcur + |ds| then ds[k - tcur].index else types[k]
    decreases |ds|
  {
    if ds != [] {
      TypesAfterAt(types[tcur := ds[0].index], tcur + 1, ds[1..]);
    }
  }

  /** The state at the start of the next entry, once the entry `d` and the
      separator after it have been read. */
  function NextEntry(st: Scanner, d: Decl, rest: string): Scanner
    requires st.slot < |st.table| && st.tcur < |st.types|
  {
    st.(rest := rest, slot := st.slot + 1, tcur := st.tcur + 1, types := st.types[st.tcur := d.index],
        table := st.table[st.slot := Pad(Truncate(d.name))])
  }

  /** The requirements on the state a rendered list is scanned from. */
  predicate ListStart(n: nat, st: Scanner, ds: seq<Decl>, tail: string)
    requires ds != [] && forall i | 0 <= i < |ds| :: ValidDecl(ds[i])
  {
    && st.rest == RenderOnto(ds, tail)
    && ((tail == [] && st.slot + |ds| <= n) || (tail != [] && IsSeparator(tail[0]) && st.slot + |ds| == n))
    && !st.inName && st.letters == 0 && |st.table| == n
    && (forall j | st.slot <= j < st.slot + |ds| :: st.table[j] == Zeros(MaxVarNameLen))
    && st.tcur + |ds| <= |st.types|
  }

  /** After an entry followed by ", " the rest of the list starts an entry. */
  lemma EntryThenComma(n: nat, st: Scanner, ds: seq<Decl>, tail: string)
    requires |ds| > 1 && forall i | 0 <= i < |ds| :: ValidDecl(ds[i])
    requires ListStart(n, st, ds, tail)
    ensures ListStart(n, NextEntry(st, ds[0], RenderOnto(ds[1..], tail)), ds[1..], tail)
  {
  }

  /** An entry followed by ", " and more entries is read in one go. */
  lemma CommaEntryScan(n: nat, st: Scanner, ds: seq<Decl>, tail: string)
    requires |ds| > 1 && forall i | 0 <= i < |ds| :: ValidDecl(ds[i])
    requires ListStart(n, st, ds, tail)
    ensures Scan(n, st) == Scan(n, NextEntry(st, ds[0], RenderOnto(ds[1..], tail)))
  {
    RenderHead(ds, tail);
    assert AtEntry(n, st) && ValidDecl(ds[0]) && st.slot + 1 < n;
    EntryComma(n, st, ds[0], RenderOnto(ds[1..], tail));
  }

  lemma EntryComma(n: nat, st: Scanner, d: Decl, r: string)
    requires AtEntry(n, st) && ValidDecl(d) && st.rest == Item(d) + (", " + r) && st.slot + 1 < n
    ensures Scan(n, st) == Scan(n, NextEntry(st, d, r))
  {
    CommaSplit(r);
    Entry(n, st, d, ", " + r);
    var s2 := st.(tcur := st.tcur + 1, types := st.types[st.tcur := d.index],
                  table := st.table[st.slot := Pad(Truncate(d.name))], rest := " " + r, slot := st.slot + 1);
    SkipBlank(n, s2, r);
    assert s2.(rest := r) == NextEntry(st, d, r);
  }

  lemma SkipBlank(n: nat, st: Scanner, r: string)
    requires st.rest == " " + r && !st.inName && st.slot < n
    ensures Scan(n, st) == Scan(n, st.(rest := r))
  {
    CommaSplit(r);
    SeparatorStep(st);
    Unfold(n, st);
  }

  /** The last entry of a list. */
  lemma LastEntry(n: nat, st: Scanner, ds: seq<Decl>, tail: string)
    requires |ds| == 1 && ValidDecl(ds[0])
    requires ListStart(n, st, ds, tail)
    ensures Scan(n, st).0 == Ok
    ensures Scan(n, st).1.table == st.table[st.slot := Pad(Truncate(ds[0].name))]
    ensures Scan(n, st).1.types == st.types[st.tcur := ds[0].index]
  {
    var d := ds[0];
    RenderHead(ds, tail);
    assert AtEntry(n, st);
    Entry(n, st, d, tail);
    if tail != [] {
      var s2 := NextEntry(st, d, tail[1..]);
      assert Scan(n, s2) == (Ok, s2);
    }
  }

  /** A whole rendered list from an entry start on. With text after it (which
      starts with a separator) the list must fill the last slots, and the text
      after it is then never read. */
  lemma {:induction false} ScanRendered(n: nat, st: Scanner, ds: seq<Decl>, tail: string)
    requires ds != [] && forall i | 0 <= i < |ds| :: ValidDecl(ds[i])
    requires ListStart(n, st, ds, tail)
    ensures Scan(n, st).0 == Ok
    ensures Scan(n, st).1.table == NamesAfter(st.table, st.slot, ds)
    ensures Scan(n, st).1.types == TypesAfter(st.types, st.tcur, ds)
    decreases |ds|, 1
  {
    if |ds| == 1 {
      LastEntry(n, st, ds, tail);
      assert ds[1..] == [];
    } else {
      ScanRenderedMore(n, st, ds, tail);
    }
  }

  /** ScanRendered for a list of two or more entries. */
  lemma {:induction false} ScanRenderedMore(n: nat, st: Scanner, ds: seq<Decl>, tail: string)
    requires |ds| > 1 && forall i | 0 <= i < |ds| :: ValidDecl(ds[i])
    requires ListStart(n, st, ds, tail)
    ensures Scan(n, st).0 == Ok
    ensures Scan(n, st).1.table == NamesAfter(st.table, st.slot, ds)
    ensures Scan(n, st).1.types == TypesAfter(st.types, st.tcur, ds)
    decreases |ds|, 0
  {
    var s3 := NextEntry(st, ds[0], RenderOnto(ds[1..], tail));
    EntryThenComma(n, st, ds, tail);
    CommaEntryScan(n, st, ds, tail);
    ScanRendered(n, s3, ds[1..], tail);
    AfterNextEntry(st, ds, RenderOnto(ds[1..], tail), Scan(n, s3).1);
  }

  lemma AfterNextEntry(st: Scanner, ds: seq<Decl>, rest: string, r: Scanner)
    requires ds != [] && st.slot < |st.table| && st.tcur < |st.types|
    requires var s3 := NextEntry(st, ds[0], rest);
      && r.table == NamesAfter(s3.table, s3.slot, ds[1..])
      && r.types == TypesAfter(s3.types, s3.tcur, ds[1..])
    ensures r.table == NamesAfter(st.table, st.slot, ds)
    ensures r.types == TypesAfter(st.types, st.tcur, ds)
  {
    var s3 := NextEntry(st, ds[0], rest);
    assert s3.table == st.table[st.slot := Pad(Truncate(ds[0].name))] && s3.slot == st.slot + 1;
    assert s3.types == st.types[st.tcur := ds[0].index] && s3.tcur == st.tcur + 1;
    AfterStep(st.table, st.slot, st.types, st.tcur, ds);
  }

  lemma StoredName(d: Decl)
    requires ValidName(d.name)
    ensures CStr(Pad(Truncate(d.name))) == Truncate(d.name)
  {
    var v := Truncate(d.name);
    assert forall i | 0 <= i < |v| :: v[i] == d.name[i];
    CStrOfPad(v);
  }

  /** The scan of a rendered list over a zeroed table, in terms of NamesAfter
      and TypesAfter. */
  lemma RenderedParse(ds: seq<Decl>, n: nat, types: seq<nat>)
    requires forall i | 0 <= i < |ds| :: ValidDecl(ds[i])
    requires |ds| <= n && |ds| <= |types|
    ensures ParseSpec(Render(ds), n, ZeroTable(n), types) == (Ok, NamesAfter(ZeroTable(n), 0, ds), TypesAfter(types, 0, ds))
  {
    if ds != [] {
      ScanRendered(n, Start(Render(ds), ZeroTable(n), types), ds, []);
    }
  }

  /** Round trip: the scan of a rendered list of at most nVars declarations
      over a zeroed table returns 1, stores each name (cut to
      MAX_VAR_NAME_LEN - 1 letters) in its own row in order, leaves the other
      rows empty, and stores each type's index in order. */
  lemma RenderRoundTrip(ds: seq<Decl>, n: nat, types: seq<nat>)
    requires forall i | 0 <= i < |ds| :: ValidDecl(ds[i])
    requires |ds| <= n && |ds| <= |types|
    ensures ParseSpec(Render(ds), n, ZeroTable(n), types).0 == Ok
    ensures forall j | 0 <= j < n ::
              CStr(ParseSpec(Render(ds), n, ZeroTable(n), types).1[j]) ==
              if j < |ds| then Truncate(ds[j].name) else []
    ensures forall k | 0 <= k < |types| ::
              ParseSpec(Render(ds), n, ZeroTable(n), types).2[k] ==
              if k < |ds| then ds[k].index else types[k]
  {
    RenderedParse(ds, n, types);
    var p := ParseSpec(Render(ds), n, ZeroTable(n), types);
    RoundTripOf(ds, n, types, p.1, p.2);
  }

  /** The round trip's facts about the table and the type array the scan of
      a rendered list leaves. */
  lemma RoundTripOf(ds: seq<Decl>, n: nat, types: seq<nat>, names: seq<seq<char>>, out: seq<nat>)
    requires forall i | 0 <= i < |ds| :: ValidDecl(ds[i])
    requires |ds| <= n && |ds| <= |types|
    requires names == NamesAfter(ZeroTable(n), 0, ds) && out == TypesAfter(types, 0, ds)
    ensures |names| == n && |out| == |types|
    ensures forall j | 0 <= j < n :: CStr(names[j]) == if j < |ds| then Truncate(ds[j].name) else []
    ensures forall k | 0 <= k < |types| :: out[k] == if k < |ds| then ds[k].index else types[k]
  {
    NamesAfterZero(ds, n);
    TypesAfterAt(types, 0, ds);
  }

  /** The names a zeroed table holds once the names of `ds` are stored. */
  lemma NamesAfterZero(ds: seq<Decl>, n: nat)
    requires forall i | 0 <= i < |ds| :: ValidDecl(ds[i])
    requires |ds| <= n
    ensures forall j | 0 <= j < n ::
              CStr(NamesAfter(ZeroTable(n), 0, ds)[j]) == if j < |ds| then Truncate(ds[j].name) else []
  {
    NamesAfterAt(ZeroTable(n), 0, ds);
    assert |NamesAfter(ZeroTable(n), 0, ds)| == n;
    forall j | 0 <= j < n
      ensures CStr(NamesAfter(ZeroTable(n), 0, ds)[j]) == if j < |ds| then Truncate(ds[j].name) else []
    {
      if j < |ds| {
        StoredName(ds[j]);
      } else {
        CStrOfZeros();
      }
    }
  }

  lemma CStrOfZeros()
    ensures CStr(Zeros(MaxVarNameLen)) == []
  {
    assert Zeros(MaxVarNameLen)[0] == '\0';
  }

  /** Once nVars names are closed the scan stops: whatever follows the
      separator after the last of them is never read, so it cannot change the
      result or make the call fail. */
  lemma LaterEntriesIgnored(ds: seq<Decl>, tail: string, n: nat, types: seq<nat>)
    requires forall i | 0 <= i < |ds| :: ValidDecl(ds[i])
    requires 0 < |ds| == n <= |types|
    requires tail != [] && IsSeparator(tail[0])
    ensures ParseSpec(Render(ds) + tail, n, ZeroTable(n), types) == ParseSpec(Render(ds), n, ZeroTable(n), types)
  {
    RenderThenText(ds, tail);
    ScanRendered(n, Start(Render(ds) + tail, ZeroTable(n), types), ds, tail);
    ScanRendered(n, Start(Render(ds), ZeroTable(n), types), ds, []);
  }
}
