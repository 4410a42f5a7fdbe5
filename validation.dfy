/** Field validation and the retry loops of `add_book` and `update_book`.
    Every `input()` answer is the next element of a sequence of entries;
    running out of entries stands for the end of input. */
module Validation {
  import opened Text

  /** The book columns, in sheet order: Title, Author, Year, Genre. */
  const FieldCount: nat := 4
  const YearIndex: nat := 2

  /** Why an entry was refused (the two error messages of each loop). */
  datatype Reason = YearNotDigits | TooShortOrNotAlnum

  /** What one entry does to a field's retry loop: store a value and move
      on, ask again, or stop the program (an `IndexError`). */
  datatype Step = Accept(value: String) | Retry(reason: Reason) | Fail

  /** The rule one of the loops applies to the entry for field `i`. */
  type Check = (nat, String) -> Step

  /** The rule shared by all fields: at least two characters, spaces
      included, and alphanumeric once spaces are removed. */
  predicate GeneralRule(v: String)
  {
    |v| >= 2 && IsAlnum(RemoveSpaces(v))
  }

  function AddStep(i: nat, v: String): Step
  {
    if i == YearIndex && v != "" && !IsDigits(v) then Retry(YearNotDigits)
    else if i == YearIndex && v == "" then Accept("")
    else if GeneralRule(v) then Accept(v)
    else Retry(TooShortOrNotAlnum)
  }

  function UpdateStep(current: seq<String>, i: nat, v: String): Step
  {
    if v == "" then (if i < |current| then Accept(current[i]) else Fail)
    else if i == YearIndex && !IsDigits(v) then Retry(YearNotDigits)
    else if !GeneralRule(v) then Retry(TooShortOrNotAlnum)
    else Accept(v)
  }

  /** The rule of `update_book` for the row whose current cells are
      `current`. */
  function UpdateCheck(current: seq<String>): Check
  {
    (i: nat, v: String) => UpdateStep(current, i, v)
  }

  /** Title, Author and Genre when adding: accepted exactly when the entry
      has at least two characters (spaces count), some character is not a
      space and all others are letters, digits or spaces; the entry itself is
      stored. So "a " passes and "  " fails. */
  lemma AddFieldRule(i: nat, v: String)
    requires i < FieldCount && i != YearIndex
    ensures AddStep(i, v).Accept? <==> |v| >= 2 && AlnumOrSpaces(v)
    ensures AddStep(i, v).Accept? ==> AddStep(i, v).value == v
    ensures !AddStep(i, v).Accept? ==> AddStep(i, v) == Retry(TooShortOrNotAlnum)
  {
    RemoveSpacesIsAlnum(v);
  }

  /** The year when adding: the empty entry is stored as "", a non-digit
      entry is refused as a bad year, and a digit string is stored only when
      it has at least two characters. Four digits are never required. */
  lemma AddYearRule(v: String)
    ensures AddStep(YearIndex, v).Accept? <==> v == "" || (IsDigits(v) && |v| >= 2)
    ensures AddStep(YearIndex, v).Accept? ==> AddStep(YearIndex, v).value == v
    ensures AddStep(YearIndex, v) == Retry(YearNotDigits) <==> v != "" && !IsDigits(v)
  {
    if IsDigits(v) {
      assert ' ' !in v;
      RemoveSpacesNoSpace(v);
      assert IsAlnum(v);
    }
  }

  /** Examples of the rules as written: spaces count towards the length,
      a lone digit is too short for a year, and neither loop insists on four
      digits, although `update_book`'s message asks for them. */
  lemma RuleExamples(current: seq<String>)
    ensures AddStep(0, "a ") == Accept("a ")
    ensures AddStep(0, "  ") == Retry(TooShortOrNotAlnum)
    ensures AddStep(YearIndex, "7") == Retry(TooShortOrNotAlnum)
    ensures AddStep(YearIndex, "12345") == Accept("12345")
    ensures AddStep(YearIndex, "19 84") == Retry(YearNotDigits)
    ensures UpdateStep(current, YearIndex, "99") == Accept("99")
    ensures UpdateStep(current, YearIndex, "MCMLXXXIV") == Retry(YearNotDigits)
  {
    assert RemoveSpaces("a ") == "a";
    assert RemoveSpaces("  ") == "";
    AddYearRule("7");
    AddYearRule("12345");
    assert !IsDigits("19 84") by { assert !IsDigitChar("19 84"[2]); }
    AddYearRule("99");
    assert !IsDigits("MCMLXXXIV") by { assert !IsDigitChar("MCMLXXXIV"[0]); }
  }

  /** `update_book`: an empty answer keeps the current cell (or stops the
      program when the row has no such cell); otherwise a year must be
      digits, and every answer must pass the general rule and is then stored
      as typed. */
  lemma UpdateFieldRule(current: seq<String>, i: nat, v: String)
    requires i < FieldCount
    ensures v == "" ==> UpdateStep(current, i, v) == (if i < |current| then Accept(current[i]) else Fail)
    ensures v != "" ==>
      (UpdateStep(current, i, v).Accept? <==>
         (i == YearIndex ==> IsDigits(v)) && |v| >= 2 && AlnumOrSpaces(v))
    ensures v != "" && UpdateStep(current, i, v).Accept? ==> UpdateStep(current, i, v).value == v
    ensures v != "" ==> !UpdateStep(current, i, v).Fail?
    ensures i == YearIndex && v != "" && !IsDigits(v) ==> UpdateStep(current, i, v) == Retry(YearNotDigits)
  {
    RemoveSpacesIsAlnum(v);
  }

  /** How a field's retry loop ended: a value stored, the program stopped,
      or the entries ran out. `next` is the position just after the entry
      that decided it. */
  datatype FieldRead = Read(value: String, next: nat) | Failed(next: nat) | OutOfInput

  /** The value a field's retry loop settles on, scanning the entries from
      position `pos`. */
  function FirstAccepted(check: Check, i: nat, inputs: seq<String>, pos: nat): (r: FieldRead)
    requires pos <= |inputs|
    ensures !r.OutOfInput? ==> pos < r.next <= |inputs|
    decreases |inputs| - pos
  {
    if pos == |inputs| then OutOfInput
    else match check(i, inputs[pos])
      case Accept(v) => Read(v, pos + 1)
      case Fail => Failed(pos + 1)
      case Retry(_) => FirstAccepted(check, i, inputs, pos + 1)
  }

  /** The first entry that is not refused decides the field, and every
      entry before it was refused; when none decides, the entries ran out. */
  lemma {:induction false} FirstAcceptedIsFirst(check: Check, i: nat, inputs: seq<String>, pos: nat)
    requires pos <= |inputs|
    ensures var r := FirstAccepted(check, i, inputs, pos);
      (r.Read? ==> check(i, inputs[r.next - 1]) == Accept(r.value)) &&
      (r.Failed? ==> check(i, inputs[r.next - 1]) == Fail) &&
      (r.OutOfInput? ==> forall k :: pos <= k < |inputs| ==> check(i, inputs[k]).Retry?) &&
      (!r.OutOfInput? ==> forall k :: pos <= k < r.next - 1 ==> check(i, inputs[k]).Retry?)
    decreases |inputs| - pos
  {
    if pos < |inputs| && check(i, inputs[pos]).Retry? {
      FirstAcceptedIsFirst(check, i, inputs, pos + 1);
    }
  }

  /** One field's `while True` retry loop, reading from position `from`. */
  method ReadField(check: Check, i: nat, inputs: seq<String>, from: nat) returns (r: FieldRead)
    requires from <= |inputs|
    ensures r == FirstAccepted(check, i, inputs, from)
  {
    var pos := from;
    while pos < |inputs|
      invariant from <= pos <= |inputs|
      invariant FirstAccepted(check, i, inputs, from) == FirstAccepted(check, i, inputs, pos)
    {
      match check(i, inputs[pos])
      case Accept(v) =>
        return Read(v, pos + 1);
      case Fail =>
        return Failed(pos + 1);
      case Retry(_) =>
        pos := pos + 1;
    }
    return OutOfInput;
  }

  /** How filling a whole row ended; `next` is the position after the last
      entry read. */
  datatype RowRead = Complete(values: seq<String>, next: nat) | RowFailed | RowOutOfInput

  function Prepend(row: seq<String>, r: RowRead): RowRead
  {
    match r
    case Complete(vs, n) => Complete(row + vs, n)
    case RowFailed => RowFailed
    case RowOutOfInput => RowOutOfInput
  }

  /** The fields from index `i` on, each read by its retry loop from where
      the previous one stopped. A completed row has one value per field. */
  function ReadRowFrom(check: Check, i: nat, inputs: seq<String>, pos: nat): (r: RowRead)
    requires i <= FieldCount && pos <= |inputs|
    ensures r.Complete? ==> |r.values| == FieldCount - i && pos <= r.next <= |inputs|
    decreases FieldCount - i
  {
    if i == FieldCount then Complete([], pos)
    else match FirstAccepted(check, i, inputs, pos)
      case OutOfInput => RowOutOfInput
      case Failed(_) => RowFailed
      case Read(v, n) => Prepend([v], ReadRowFrom(check, i + 1, inputs, n))
  }

  lemma PrependTwice(a: seq<String>, b: seq<String>, r: RowRead)
    ensures Prepend(a, Prepend(b, r)) == Prepend(a + b, r)
  {
    if r.Complete? {
      assert a + (b + r.values) == (a + b) + r.values;
    }
  }

  /** The `for i, field in enumerate(...)` loop around the retry loops,
      appending each accepted value to the row being built. */
  method FillRow(check: Check, inputs: seq<String>) returns (r: RowRead)
    ensures r == ReadRowFrom(check, 0, inputs, 0)
  {
    var row: seq<String> := [];
    var pos: nat := 0;
    var i: nat := 0;
    while i < FieldCount
      invariant i <= FieldCount && pos <= |inputs| && |row| == i
      invariant ReadRowFrom(check, 0, inputs, 0) == Prepend(row, ReadRowFrom(check, i, inputs, pos))
    {
      var f := ReadField(check, i, inputs, pos);
      if !f.Read? {
        return if f.OutOfInput? then RowOutOfInput else RowFailed;
      }
      PrependTwice(row, [f.value], ReadRowFrom(check, i + 1, inputs, f.next));
      row := row + [f.value];
      pos := f.next;
      i := i + 1;
    }
    assert row + [] == row;
    return Complete(row, pos);
  }

  /** Some entry was accepted as `v` for field `j`. */
  predicate AcceptedFor(check: Check, j: nat, inputs: seq<String>, v: String)
  {
    exists k :: 0 <= k < |inputs| && check(j, inputs[k]) == Accept(v)
  }

  /** Each value, from field `i` on, is what some entry was accepted as for
      its field. */
  predicate RowAccepted(check: Check, i: nat, inputs: seq<String>, values: seq<String>)
  {
    forall j :: 0 <= j < |values| ==> AcceptedFor(check, i + j, inputs, values[j])
  }

  lemma RowAcceptedCons(check: Check, i: nat, inputs: seq<String>, v: String, values: seq<String>)
    requires AcceptedFor(check, i, inputs, v) && RowAccepted(check, i + 1, inputs, values)
    ensures RowAccepted(check, i, inputs, [v] + values)
  {
    forall j | 0 < j < |[v] + values|
      ensures AcceptedFor(check, i + j, inputs, ([v] + values)[j])
    {
      assert ([v] + values)[j] == values[j - 1];
      assert AcceptedFor(check, (i + 1) + (j - 1), inputs, values[j - 1]);
    }
  }

  /** Each value of a completed row is what some entry was accepted as for
      that field. */
  lemma {:induction false} RowValuesAccepted(check: Check, i: nat, inputs: seq<String>, pos: nat)
    requires i <= FieldCount && pos <= |inputs|
    ensures ReadRowFrom(check, i, inputs, pos).Complete? ==>
      RowAccepted(check, i, inputs, ReadRowFrom(check, i, inputs, pos).values)
    decreases FieldCount - i
  {
    if i < FieldCount && ReadRowFrom(check, i, inputs, pos).Complete? {
      var f := FirstAccepted(check, i, inputs, pos);
      FirstAcceptedIsFirst(check, i, inputs, pos);
      assert check(i, inputs[f.next - 1]) == Accept(f.value);
      var rest := ReadRowFrom(check, i + 1, inputs, f.next);
      RowValuesAccepted(check, i + 1, inputs, f.next);
      RowAcceptedCons(check, i, inputs, f.value, rest.values);
    }
  }

  /** `add_book`: the row handed to `append_row`, when all four fields were
      answered. */
  method AddBook(inputs: seq<String>) returns (r: RowRead)
    ensures r == ReadRowFrom(AddStep, 0, inputs, 0)
    ensures r.Complete? ==> |r.values| == FieldCount
    ensures r.Complete? ==> forall j :: 0 <= j < FieldCount ==> AcceptedFor(AddStep, j, inputs, r.values[j])
  {
    r := FillRow(AddStep, inputs);
    RowValuesAccepted(AddStep, 0, inputs, 0);
  }

  /** A completed add row passes the rules: each non-year value has at
      least two characters and is alphanumeric apart from spaces; the year
      is empty or a digit string of at least two characters. */
  lemma AddedRowValid(inputs: seq<String>)
    ensures ReadRowFrom(AddStep, 0, inputs, 0).Complete? ==>
      var vs := ReadRowFrom(AddStep, 0, inputs, 0).values;
      (forall j :: 0 <= j < FieldCount && j != YearIndex ==> |vs[j]| >= 2 && AlnumOrSpaces(vs[j])) &&
      (vs[YearIndex] == "" || (IsDigits(vs[YearIndex]) && |vs[YearIndex]| >= 2))
  {
    var r := ReadRowFrom(AddStep, 0, inputs, 0);
    if r.Complete? {
      RowValuesAccepted(AddStep, 0, inputs, 0);
      forall j | 0 <= j < FieldCount
        ensures j != YearIndex ==> |r.values[j]| >= 2 && AlnumOrSpaces(r.values[j])
        ensures j == YearIndex ==> r.values[j] == "" || (IsDigits(r.values[j]) && |r.values[j]| >= 2)
      {
        assert AcceptedFor(AddStep, j, inputs, r.values[j]);
        var k :| 0 <= k < |inputs| && AddStep(j, inputs[k]) == Accept(r.values[j]);
        if j == YearIndex {
          AddYearRule(inputs[k]);
        } else {
          AddFieldRule(j, inputs[k]);
        }
      }
    }
  }

  /** One `update_cell(row, column, value)` call. */
  datatype CellWrite = CellWrite(column: nat, value: String)

  /** `update_book`: the merged row and the cell writes issued for it. The
      writes cover columns 1 to 4 in field order, one per value. */
  method UpdateBook(current: seq<String>, inputs: seq<String>) returns (r: RowRead, writes: seq<CellWrite>)
    ensures r == ReadRowFrom(UpdateCheck(current), 0, inputs, 0)
    ensures r.Complete? ==> |r.values| == FieldCount && |writes| == FieldCount
    ensures r.Complete? ==> forall j :: 0 <= j < FieldCount ==> writes[j] == CellWrite(j + 1, r.values[j])
    ensures !r.Complete? ==> writes == []
  {
    r := FillRow(UpdateCheck(current), inputs);
    writes := [];
    if r.Complete? {
      for i := 0 to FieldCount
        invariant |writes| == i
        invariant forall j :: 0 <= j < i ==> writes[j] == CellWrite(j + 1, r.values[j])
      {
        writes := writes + [CellWrite(i + 1, r.values[i])];
      }
    }
  }

  /** The update merge: every value of a completed update row is either the
      current cell, kept by an empty answer, or a typed answer that passes
      the rules (a year must be digits). */
  lemma UpdateMerge(current: seq<String>, inputs: seq<String>)
    ensures ReadRowFrom(UpdateCheck(current), 0, inputs, 0).Complete? ==>
      var vs := ReadRowFrom(UpdateCheck(current), 0, inputs, 0).values;
      forall j :: 0 <= j < FieldCount ==>
        (j < |current| && vs[j] == current[j]) ||
        (|vs[j]| >= 2 && AlnumOrSpaces(vs[j]) && (j == YearIndex ==> IsDigits(vs[j])))
  {
    var r := ReadRowFrom(UpdateCheck(current), 0, inputs, 0);
    if r.Complete? {
      RowValuesAccepted(UpdateCheck(current), 0, inputs, 0);
      forall j | 0 <= j < FieldCount
        ensures (j < |current| && r.values[j] == current[j]) ||
          (|r.values[j]| >= 2 && AlnumOrSpaces(r.values[j]) && (j == YearIndex ==> IsDigits(r.values[j])))
      {
        assert AcceptedFor(UpdateCheck(current), j, inputs, r.values[j]);
        var k :| 0 <= k < |inputs| && UpdateCheck(current)(j, inputs[k]) == Accept(r.values[j]);
        UpdateFieldRule(current, j, inputs[k]);
      }
    }
  }
}
