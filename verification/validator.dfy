/** `valueValidator`, `expressionStringValidator` and
    `expressionObjectValidator`: pure checks of field values against the
    bounds table, without any builder state. */
module Validator {
  import opened Outcomes
  import opened Strings
  import opened Fields

  /** What `valueValidator` is handed: a string (by the constructor and
      addValue) or a whole array of strings (by set and setAll). */
  datatype Value = Text(s: string) | List(items: seq<string>)

  /** The text JavaScript coerces the value to before a regular-expression
      test or parseInt: an array becomes its elements joined by commas. */
  function AsText(v: Value): string
  {
    match v
    case Text(s) => s
    case List(items) => Join(items, ',')
  }

  /** `/^[0-9*-]/.test(text)`: only the first character is looked at. */
  predicate StartsWell(text: string)
  {
    |text| > 0 && (IsDigit(text[0]) || text[0] == '*' || text[0] == '-')
  }

  /** `value.indexOf('-') >= 0`: a character search in a string, but a search
      for an element that is exactly "-" in an array. */
  predicate HasDash(v: Value)
  {
    match v
    case Text(s) => '-' in s
    case List(items) => "-" in items
  }

  /** `x < bound` where x may be NaN: every comparison with NaN is false. */
  predicate Below(x: Option<int>, bound: nat)
  {
    x.Some? && x.value < bound
  }

  predicate Above(x: Option<int>, bound: nat)
  {
    x.Some? && x.value > bound
  }

  /** The range branch of valueValidator. Only the first two pieces of the
      split are read; the bottom is compared with the minimum only and the
      top with the maximum only. Both tests run and the top-of-range message
      is written second, so it is the one reported when both fail. */
  function RangeVerdict(s: string, f: Field): Outcome
    requires '-' in s
  {
    var range := Split(s, '-');
    var bottomBad := range[0] == "" || Below(ToNumber(range[0]), Min(f));
    var topBad := range[1] == "" || Above(ToNumber(range[1]), Max(f));
    if topBad then Fail(RangeTop)
    else if bottomBad then Fail(RangeBottom)
    else Pass
  }

  /** The plain-value branch: the bounds are tested on parseInt of the text.
      The maximum test runs second and so overrides; the two cannot both
      fail since every minimum is at most its maximum. */
  function ScalarVerdict(n: Option<int>, f: Field): Outcome
  {
    if Above(n, Max(f)) then Fail(AboveMax)
    else if Below(n, Min(f)) then Fail(BelowMin)
    else Pass
  }

  /** valueValidator(value, measureOfTime). */
  function Validate(v: Value, name: string): (r: Outcome)
    ensures FieldOf(name).None? ==> r == Fail(UnknownField)
    ensures FieldOf(name).Some? && !StartsWell(AsText(v)) ==> r == Fail(BadCharacter)
    ensures r.Pass? ==> FieldOf(name).Some? && StartsWell(AsText(v))
    ensures FieldOf(name).Some? && v == Text("*") ==> r == Pass
    ensures r.Fail? ==> r.error !in {TooManyFields, NotAnArray, AlreadyDefault}
    ensures r == Fail(ArraySplitThrows) ==> v.List? && "-" in v.items
  {
    match FieldOf(name)
    case None => Fail(UnknownField)
    case Some(f) =>
      if !StartsWell(AsText(v)) then Fail(BadCharacter)
      else if v == Text("*") then Pass
      else if HasDash(v) then
        match v
        case Text(s) => RangeVerdict(s, f)
        case List(_) => Fail(ArraySplitThrows)
      else ScalarVerdict(ParseInt(AsText(v)), f)
  }

  /** The first failing verdict of a loop that stops at the first failure,
      or Pass when none fails. */
  function FirstFailure(checks: seq<Outcome>): (r: Outcome)
    ensures r.Pass? <==> forall i :: 0 <= i < |checks| ==> checks[i].Pass?
    ensures r.Fail? ==> exists j :: 0 <= j < |checks| && checks[j] == r &&
                          forall i :: 0 <= i < j ==> checks[i].Pass?
    decreases |checks|
  {
    if |checks| == 0 then Pass
    else if checks[0].Fail? then checks[0]
    else
      var r := FirstFailure(checks[1..]);
      assert forall i :: 1 <= i < |checks| ==> checks[i] == checks[1..][i - 1];
      r
  }

  /** The verdict of each token of a space-separated expression against the
      field of its position. */
  function TokenChecks(tokens: seq<string>): (checks: seq<Outcome>)
    requires |tokens| <= FieldCount
    ensures |checks| == |tokens|
  {
    seq(|tokens|, i requires 0 <= i < |tokens| => Validate(Text(tokens[i]), PositionName(i)))
  }

  /** expressionStringValidator(tokens). */
  function ValidateTokens(tokens: seq<string>): (r: Outcome)
    ensures |tokens| > FieldCount ==> r == Fail(TooManyFields)
    ensures |tokens| <= FieldCount ==>
              (r.Pass? <==> forall i :: 0 <= i < |tokens| ==> Validate(Text(tokens[i]), PositionName(i)).Pass?)
    ensures |tokens| <= FieldCount && r.Fail? ==>
              exists j :: 0 <= j < |tokens| && r == Validate(Text(tokens[j]), PositionName(j)) &&
                forall i :: 0 <= i < j ==> Validate(Text(tokens[i]), PositionName(i)).Pass?
  {
    if |tokens| > FieldCount then Fail(TooManyFields)
    else
      var checks := TokenChecks(tokens);
      var r := FirstFailure(checks);
      assert forall i :: 0 <= i < |tokens| ==> checks[i] == Validate(Text(tokens[i]), PositionName(i));
      r
  }

  /** One own property of an object handed to setAll: key and array value. */
  type Entry = (string, seq<string>)

  /** The verdict of each property of an object, in enumeration order. */
  function EntryChecks(entries: seq<Entry>): (checks: seq<Outcome>)
    ensures |checks| == |entries|
  {
    seq(|entries|, i requires 0 <= i < |entries| => Validate(List(entries[i].1), entries[i].0))
  }

  /** expressionObjectValidator(object), the object given by its own
      properties in enumeration order. */
  function ValidateEntries(entries: seq<Entry>): (r: Outcome)
    ensures |entries| > FieldCount ==> r == Fail(TooManyFields)
    ensures |entries| <= FieldCount ==>
              (r.Pass? <==> forall i :: 0 <= i < |entries| ==> Validate(List(entries[i].1), entries[i].0).Pass?)
    ensures |entries| <= FieldCount && r.Fail? ==>
              exists j :: 0 <= j < |entries| && r == Validate(List(entries[j].1), entries[j].0) &&
                forall i :: 0 <= i < j ==> Validate(List(entries[i].1), entries[i].0).Pass?
  {
    if |entries| > FieldCount then Fail(TooManyFields)
    else
      var checks := EntryChecks(entries);
      var r := FirstFailure(checks);
      assert forall i :: 0 <= i < |entries| ==> checks[i] == Validate(List(entries[i].1), entries[i].0);
      r
  }
}
