/**
 * The input rules the flashcard and quiz generator screens share: the
 * count field's edit filter, the 1..10 range check, and how imported text
 * is added to the input.
 */
module GeneratorInput {
  import opened KotlinStd

  /** The count field holds at most two digits. */
  predicate FieldOk(field: string) {
    AllDigits(field) && |field| <= 2
  }

  /** `onValueChange`: an edit is kept only if it is all digits and at most
      two characters long; otherwise the field keeps its old text. */
  function EditCount(field: string, edit: string): (r: string)
    ensures r == edit <==> FieldOk(edit) || edit == field
    ensures r != edit ==> r == field
  {
    if FieldOk(edit) then edit else field
  }

  /** Edits never leave the field in a state the filter would refuse. */
  lemma EditKeepsFieldOk(field: string, edit: string)
    requires FieldOk(field)
    ensures FieldOk(EditCount(field, edit))
  {
  }

  const MinCount: int := 1
  const MaxCount: int := 10

  /** `toIntOrNull()` then the range check `in 1..10`. */
  function RequestedCount(field: string): (r: Option<int>)
    ensures r.Some? ==> MinCount <= r.value <= MaxCount
    ensures r.Some? <==> ToIntOrNull(field).Some? && MinCount <= ToIntOrNull(field).value <= MaxCount
  {
    match ToIntOrNull(field)
    case None => None
    case Some(n) => if MinCount <= n <= MaxCount then Some(n) else None
  }

  /** The field as the filter leaves it reads as a number below 100, or as
      nothing when it is empty. */
  lemma FieldValue(field: string)
    requires FieldOk(field)
    ensures ToIntOrNull(field).None? <==> field == ""
    ensures ToIntOrNull(field).Some? ==> 0 <= ToIntOrNull(field).value < 100
  {
    if |field| > 0 {
      var v := DigitsValue(field);
      if |field| == 1 {
        assert field[..0] == [] && DigitsValue(field[..0]) == 0;
        assert v < 10;
      } else {
        assert field[..1][..0] == [] && DigitsValue(field[..1][..0]) == 0;
        assert DigitsValue(field[..1]) < 10;
        assert v < 100;
      }
      assert ToIntOrNull(field) == Some(v);
    }
  }

  /** Every count in range is reachable by typing its decimal form. */
  lemma TypedCountIsRequested(n: nat)
    requires MinCount <= n <= MaxCount
    ensures FieldOk(NatToString(n)) && RequestedCount(NatToString(n)) == Some(n)
  {
    ToIntOrNullOfNatToString(n);
    assert |NatToString(n)| <= 2 by {
      if n >= 10 {
        assert NatToString(n) == NatToString(n / 10) + [DigitChar(n % 10)];
      }
    }
  }

  /** An import: the new text alone into an empty field, otherwise after a
      newline. */
  function AppendImport(input: string, text: string): (r: string)
    ensures input == "" ==> r == text
    ensures input != "" ==> |r| == |input| + 1 + |text| && r[..|input|] == input && r[|input|] == '\n'
    ensures r[|r| - |text|..] == text
  {
    if input == "" then text else input + "\n" + text
  }
}
