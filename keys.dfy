/**
 Unit keys of the plan, `"list:<N>,unit:<M>"`, and the split that the
 due-today page applies to them to recover the list and unit numbers before
 asking the backend for the unit's words.
 */
module Keys {
  import opened Text

  datatype Option<T> = None | Some(value: T)

  /**
   `f"list:{list_number},unit:{unit_number}"`: the two numbers in decimal,
   behind a `list:` and a `,unit:` tag.
   */
  function UnitKey(listNumber: nat, unitNumber: nat): (key: string)
    ensures |key| >= 13
  {
    "list:" + Decimal(listNumber) + ",unit:" + Decimal(unitNumber)
  }

  /** A field of a key holds neither separator. */
  predicate IsNumberField(part: string)
  {
    ',' !in part && ':' !in part
  }

  /**
   `value.split(',')[0].split(':')[1], value.split(',')[1].split(':')[1]`:
   the list and unit numbers as strings, or None where Python's indexing
   raises IndexError because a piece is missing, as it is for a value
   without a comma.
   */
  function SplitKey(value: string): (r: Option<(string, string)>)
    ensures ',' !in value ==> r == None
    ensures r.Some? ==> IsNumberField(r.value.0) && IsNumberField(r.value.1)
  {
    SplitCount(value, ',');
    var parts := Split(value, ',');
    if |parts| < 2 then None
    else
      var listPart := Split(parts[0], ':');
      if |listPart| < 2 then None
      else
        var unitPart := Split(parts[1], ':');
        if |unitPart| < 2 then None
        else
          SplitFields(value);
          Some((listPart[1], unitPart[1]))
  }

  /** The list and unit fields contain no separator and only characters of the key. */
  lemma SplitFields(value: string)
    requires |Split(value, ',')| >= 2
    requires |Split(Split(value, ',')[0], ':')| >= 2 && |Split(Split(value, ',')[1], ':')| >= 2
    ensures IsNumberField(Split(Split(value, ',')[0], ':')[1])
    ensures IsNumberField(Split(Split(value, ',')[1], ':')[1])
  {
    var parts := Split(value, ',');
    SplitPieces(value, ',');
    SplitPieces(parts[0], ':');
    SplitPieces(parts[1], ':');
    assert ',' !in parts[0] && ',' !in parts[1];
  }

  lemma NoSeparatorInDecimal(n: nat, sep: char)
    requires !IsDigit(sep)
    ensures sep !in Decimal(n)
  {
  }

  /** A tag, the separator and a field without the separator split into the tag and the field. */
  lemma TaggedField(tag: string, sep: char, field: string)
    requires sep !in tag && sep !in field
    ensures Split(tag + [sep] + field, sep) == [tag, field]
  {
    SplitAtFirst(tag, sep, field);
    SplitNoSeparator(field, sep);
  }

  /** The comma splits a key into its list part and its unit part. */
  lemma KeyParts(listNumber: nat, unitNumber: nat)
    ensures Split(UnitKey(listNumber, unitNumber), ',') == ["list:" + Decimal(listNumber), "unit:" + Decimal(unitNumber)]
    ensures ',' in UnitKey(listNumber, unitNumber)
  {
    var first, second := "list:" + Decimal(listNumber), "unit:" + Decimal(unitNumber);
    NoSeparatorInDecimal(listNumber, ',');
    NoSeparatorInDecimal(unitNumber, ',');
    assert UnitKey(listNumber, unitNumber) == first + [','] + second;
    TaggedField(first, ',', second);
    assert UnitKey(listNumber, unitNumber)[|first|] == ',';
  }

  /** A `tag:digits` part splits on the colon into the tag and the digits. */
  lemma NumberField(tag: string, n: nat)
    requires ':' !in tag
    ensures Split(tag + ":" + Decimal(n), ':') == [tag, Decimal(n)]
  {
    NoSeparatorInDecimal(n, ':');
    assert tag + ":" + Decimal(n) == tag + [':'] + Decimal(n);
    TaggedField(tag, ':', Decimal(n));
  }

  /** Splitting a formatted key gives back exactly the printed numbers. */
  lemma KeyRoundTrip(listNumber: nat, unitNumber: nat)
    ensures SplitKey(UnitKey(listNumber, unitNumber)) == Some((Decimal(listNumber), Decimal(unitNumber)))
    ensures DigitsValue(Decimal(listNumber)) == listNumber && DigitsValue(Decimal(unitNumber)) == unitNumber
  {
    KeyParts(listNumber, unitNumber);
    NumberField("list", listNumber);
    NumberField("unit", unitNumber);
    assert "list" + ":" == "list:" && "unit" + ":" == "unit:";
    DigitsValueOfDecimal(listNumber);
    DigitsValueOfDecimal(unitNumber);
  }

  /** Distinct (list, unit) pairs never share a key. */
  lemma UnitKeyInjective(l1: nat, u1: nat, l2: nat, u2: nat)
    requires UnitKey(l1, u1) == UnitKey(l2, u2)
    ensures l1 == l2 && u1 == u2
  {
    KeyRoundTrip(l1, u1);
    KeyRoundTrip(l2, u2);
    DecimalInjective(l1, l2);
    DecimalInjective(u1, u2);
  }
}
