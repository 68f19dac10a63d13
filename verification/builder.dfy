/** The CronBuilder object: six fields, each an ordered list of value strings,
    read and changed only through validated operations. The object is
    modelled as a value: every operation takes the current expression and
    returns the new one beside what the JavaScript method returns. */
module Builder {
  import opened Outcomes
  import opened Strings
  import opened Fields
  import opened Validator

  /** `this.expression`: the value list of each field present. setAll may
      install an object without some fields, so presence is not implied. */
  type Expression = map<Field, seq<string>>

  const Wildcard: seq<string> := ["*"]

  /** The expression of `new CronBuilder()`: every field at ["*"]. */
  const Default: Expression := map f | f in Order :: Wildcard

  /** All six fields present, as build requires. */
  predicate Complete(e: Expression)
  {
    forall f: Field :: f in e
  }

  /** Every present field holds at least one value. */
  predicate WellFormed(e: Expression)
  {
    forall f :: f in e ==> |e[f]| > 0
  }

  /** A mutator's result: the expression afterwards and the verdict. */
  datatype Update = Update(expr: Expression, outcome: Outcome)

  /** set's result: the expression afterwards and the returned string. */
  datatype SetReply = SetReply(expr: Expression, reply: Result<string>)

  /** The list a constructor token gives its field: a present, non-empty
      token alone, else the wildcard. */
  function Slot(tokens: seq<string>, i: nat): seq<string>
  {
    if i < |tokens| && tokens[i] != "" then [tokens[i]] else Wildcard
  }

  /** `new CronBuilder(init)`; the empty string stands for a missing
      argument too. A string that fails validation throws. */
  function New(init: string): (r: Result<Expression>)
    ensures init == "" ==> r == Ok(Default)
    ensures init != "" ==> (r.Ok? <==> ValidateTokens(Split(init, ' ')).Pass?)
    ensures init != "" && r.Err? ==> r.error == ValidateTokens(Split(init, ' ')).error
    ensures r.Ok? ==> Complete(r.value) && WellFormed(r.value)
    ensures r.Ok? ==> forall f :: |r.value[f]| == 1
  {
    OrderCoversFields();
    if init == "" then Ok(Default)
    else
      var tokens := Split(init, ' ');
      var check := ValidateTokens(tokens);
      if check.Fail? then Err(check.error)
      else Ok(map f | f in Order :: Slot(tokens, Index(f)))
  }

  /** The text of one field: its values joined by commas. */
  function FieldText(e: Expression, f: Field): string
    requires f in e
  {
    Join(e[f], ',')
  }

  /** The six field texts of a complete expression, in fixed order. */
  function FieldTexts(e: Expression): (r: seq<string>)
    requires Complete(e)
    ensures |r| == FieldCount && forall i :: 0 <= i < FieldCount ==> r[i] == FieldText(e, Order[i])
  {
    [FieldText(e, Minute), FieldText(e, Hour), FieldText(e, DayOfTheMonth),
     FieldText(e, MonthOfTheYear), FieldText(e, DayOfTheWeek), FieldText(e, Year)]
  }

  /** Every field holds at least one value and no value contains a space or
      a comma, so that build's text can be read back. */
  predicate Decodable(e: Expression)
  {
    && Complete(e)
    && forall f :: |e[f]| > 0 && FreeOf(e[f], ' ') && FreeOf(e[f], ',')
  }

  /** build(): the six field texts separated by single spaces. A field
      missing from the expression makes the source throw. The text decodes
      back into the expression: split at spaces it gives one piece per
      field, and each piece split at commas gives that field's values. */
  function Build(e: Expression): (r: string)
    requires Complete(e)
    ensures Decodable(e) ==> |Split(r, ' ')| == FieldCount
    ensures Decodable(e) ==> forall f :: Split(Split(r, ' ')[Index(f)], ',') == e[f]
  {
    var r := Join(FieldTexts(e), ' ');
    assert Decodable(e) ==> BuildDecodes(e, r) by {
      if Decodable(e) { FieldTextsDecode(e); }
    }
    r
  }

  /** `text` splits at spaces into six pieces, piece `Index(f)` splitting at
      commas into the values of `f`. */
  predicate BuildDecodes(e: Expression, text: string)
    requires Complete(e)
  {
    && |Split(text, ' ')| == FieldCount
    && forall f :: Split(Split(text, ' ')[Index(f)], ',') == e[f]
  }

  /** Field texts free of spaces come apart at the spaces, and each comes
      apart at its commas. */
  lemma FieldTextsDecode(e: Expression)
    requires Decodable(e)
    ensures BuildDecodes(e, Join(FieldTexts(e), ' '))
  {
    var texts := FieldTexts(e);
    forall i | 0 <= i < FieldCount ensures ' ' !in texts[i] {
      JoinAvoids(e[Order[i]], ',', ' ');
    }
    SplitJoin(texts, ' ');
    forall f ensures Split(Split(Join(texts, ' '), ' ')[Index(f)], ',') == e[f] {
      SplitJoin(e[f], ',');
    }
  }

  /** The field a name designates, provided it is known and present. */
  predicate Holds(e: Expression, name: string)
  {
    FieldOf(name).Some? && FieldOf(name).value in e
  }

  /** get(measureOfTime): the field's text, or an error for a name that is
      unknown or a field that is absent. */
  function Get(e: Expression, name: string): (r: Result<string>)
    ensures r.Err? <==> !Holds(e, name)
    ensures r.Err? ==> r.error == UnknownField
    ensures r.Ok? && |e[FieldOf(name).value]| == 1 ==> r.value == e[FieldOf(name).value][0]
  {
    if !Holds(e, name) then Err(UnknownField)
    else Ok(FieldText(e, FieldOf(name).value))
  }

  /** addValue(value, measureOfTime). Validation runs first and a failure
      leaves the expression as it was. A wildcard field is replaced by the
      value; otherwise the value is appended unless already present. */
  function AddValue(e: Expression, value: string, name: string): (r: Update)
    requires Validate(Text(value), name).Pass? ==> Holds(e, name)
    ensures r.outcome == Validate(Text(value), name)
    ensures r.outcome.Fail? ==> r.expr == e
    ensures r.expr.Keys == e.Keys
    ensures r.outcome.Pass? ==>
              var f := FieldOf(name).value;
              && (forall g :: g in e && g != f ==> r.expr[g] == e[g])
              && value in r.expr[f]
              && (e[f] == Wildcard ==> r.expr[f] == [value])
              && (e[f] != Wildcard ==> e[f] <= r.expr[f] && |r.expr[f]| <= |e[f]| + 1)
              && (e[f] != Wildcard && value in e[f] ==> r.expr[f] == e[f])
  {
    var check := Validate(Text(value), name);
    if check.Fail? then Update(e, check)
    else
      var f := FieldOf(name).value;
      if e[f] == Wildcard then Update(e[f := [value]], Pass)
      else if value in e[f] then Update(e, Pass)
      else Update(e[f := e[f] + [value]], Pass)
  }

  /** `list.filter(x => x !== value)`: every occurrence of `value` dropped,
      every other value kept as often as it was, in order. */
  function Without(list: seq<string>, value: string): (r: seq<string>)
    ensures value !in r
    ensures forall x :: x != value ==> multiset(r)[x] == multiset(list)[x]
    ensures value !in list ==> r == list
    ensures |list| == 1 ==> r == if list[0] == value then [] else list
    decreases |list|
  {
    if |list| == 0 then []
    else
      var rest := Without(list[1..], value);
      assert list == [list[0]] + list[1..];
      if list[0] == value then rest else [list[0]] + rest
  }

  /** removeValue(value, measureOfTime). An unknown or absent field is an
      error and a wildcard field is reported as already at the default;
      neither changes anything. Otherwise every occurrence of the value
      goes, and a field left empty returns to the wildcard. */
  function RemoveValue(e: Expression, value: string, name: string): (r: Update)
    ensures !Holds(e, name) ==> r == Update(e, Fail(UnknownField))
    ensures Holds(e, name) && e[FieldOf(name).value] == Wildcard ==> r == Update(e, Fail(AlreadyDefault))
    ensures r.expr.Keys == e.Keys
    ensures r.outcome.Pass? <==> Holds(e, name) && e[FieldOf(name).value] != Wildcard
    ensures r.outcome.Pass? ==>
              var f := FieldOf(name).value;
              && (forall g :: g in e && g != f ==> r.expr[g] == e[g])
              && ((forall x :: x in e[f] ==> x == value) ==> r.expr[f] == Wildcard)
              && ((exists x :: x in e[f] && x != value) ==>
                    && r.expr[f] == Without(e[f], value)
                    && value !in r.expr[f]
                    && forall x :: x != value ==> multiset(r.expr[f])[x] == multiset(e[f])[x])
  {
    if !Holds(e, name) then Update(e, Fail(UnknownField))
    else
      var f := FieldOf(name).value;
      if e[f] == Wildcard then Update(e, Fail(AlreadyDefault))
      else
        var kept := Without(e[f], value);
        if kept == [] then
          assert forall x :: x in e[f] ==> multiset(e[f])[x] > 0;
          Update(e[f := Wildcard], Pass)
        else
          assert exists x :: x in e[f] && x != value by {
            var x := kept[0];
            assert x in kept && x != value;
            assert multiset(e[f])[x] == multiset(kept)[x] > 0;
            assert x in multiset(e[f]);
            assert x in e[f];
          }
          Update(e[f := kept], Pass)
  }

  /** set(value, measureOfTime). Anything but an array is refused; the whole
      array is validated as one value; on success the field is replaced and
      its new text returned. */
  function Set(e: Expression, v: Value, name: string): (r: SetReply)
    ensures v.Text? ==> r == SetReply(e, Err(NotAnArray))
    ensures v.List? && Validate(v, name).Fail? ==> r == SetReply(e, Err(Validate(v, name).error))
    ensures r.reply.Ok? ==> v.List? && Validate(v, name).Pass?
    ensures r.reply.Ok? ==>
              && r.expr == e[FieldOf(name).value := v.items]
              && r.reply == Get(r.expr, name)
    ensures r.reply.Err? ==> r.expr == e
  {
    match v
    case Text(_) => SetReply(e, Err(NotAnArray))
    case List(items) =>
      var check := Validate(v, name);
      if check.Fail? then SetReply(e, Err(check.error))
      else
        var e' := e[FieldOf(name).value := items];
        SetReply(e', Ok(Join(items, ',')))
  }


  /** No two properties of an object share a key. */
  predicate DistinctKeys(entries: seq<Entry>)
  {
    forall i, j :: 0 <= i < j < |entries| ==> entries[i].0 != entries[j].0
  }

  /** Every key names a field. */
  predicate KnownKeys(entries: seq<Entry>)
  {
    forall i :: 0 <= i < |entries| ==> FieldOf(entries[i].0).Some?
  }

  /** The fields an object's keys name. */
  function KeyFields(entries: seq<Entry>): set<Field>
    requires KnownKeys(entries)
  {
    set i | 0 <= i < |entries| :: FieldOf(entries[i].0).value
  }

  /** The expression an object describes: each key's field mapped to the
      key's array, and no other field. */
  function FromEntries(entries: seq<Entry>): (e: Expression)
    requires KnownKeys(entries)
    requires DistinctKeys(entries)
    ensures e.Keys == KeyFields(entries)
    ensures forall i :: 0 <= i < |entries| ==> e[FieldOf(entries[i].0).value] == entries[i].1
    decreases |entries|
  {
    if |entries| == 0 then map[]
    else
      var rest := entries[1..];
      assert KnownKeys(rest) && DistinctKeys(rest);
      var f := FieldOf(entries[0].0).value;
      FirstKeyIsNew(entries);
      FromEntries(rest)[f := entries[0].1]
  }

  /** The first key's field is named by no later key, and the key fields are
      the first key's field and those of the rest. */
  lemma FirstKeyIsNew(entries: seq<Entry>)
    requires |entries| > 0 && KnownKeys(entries) && DistinctKeys(entries)
    ensures KnownKeys(entries[1..]) && DistinctKeys(entries[1..])
    ensures forall i :: 0 < i < |entries| ==> FieldOf(entries[i].0) != FieldOf(entries[0].0)
    ensures forall i :: 0 < i < |entries| ==> entries[i] == entries[1..][i - 1]
    ensures KeyFields(entries) == {FieldOf(entries[0].0).value} + KeyFields(entries[1..])
  {
    var rest := entries[1..];
    forall i | 0 < i < |entries| ensures FieldOf(entries[i].0) != FieldOf(entries[0].0) {
      assert Name(FieldOf(entries[i].0).value) == entries[i].0;
    }
    forall g | g in KeyFields(entries) ensures g in {FieldOf(entries[0].0).value} + KeyFields(rest) {
      var i :| 0 <= i < |entries| && FieldOf(entries[i].0).value == g;
      if i > 0 { assert FieldOf(rest[i - 1].0).value == g; }
    }
  }

  /** The properties an object holding the fields of `fields` that are
      present would list, in that order: one (name, list) pair each. */
  function EntriesOf(e: Expression, fields: seq<Field>): (entries: seq<Entry>)
    ensures |entries| <= |fields|
    decreases |fields|
  {
    if |fields| == 0 then []
    else if fields[0] in e then [(Name(fields[0]), e[fields[0]])] + EntriesOf(e, fields[1..])
    else EntriesOf(e, fields[1..])
  }

  /** Each pair names a present field among `fields`, with its list. */
  lemma {:induction false} EntriesOfSound(e: Expression, fields: seq<Field>)
    ensures forall i :: 0 <= i < |EntriesOf(e, fields)| ==>
              && var x := EntriesOf(e, fields)[i];
              && FieldOf(x.0).Some?
              && FieldOf(x.0).value in fields
              && FieldOf(x.0).value in e
              && x.1 == e[FieldOf(x.0).value]
    decreases |fields|
  {
    if |fields| > 0 {
      EntriesOfSound(e, fields[1..]);
      var rest := EntriesOf(e, fields[1..]);
      assert forall f :: f in fields[1..] ==> f in fields;
      if fields[0] in e {
        forall i | 0 < i < |EntriesOf(e, fields)| ensures EntriesOf(e, fields)[i] == rest[i - 1] { }
      }
    }
  }

  /** Each present field among `fields` has its pair. */
  lemma {:induction false} EntriesOfCover(e: Expression, fields: seq<Field>)
    ensures forall f :: f in e && f in fields ==> (Name(f), e[f]) in EntriesOf(e, fields)
    decreases |fields|
  {
    if |fields| > 0 {
      EntriesOfCover(e, fields[1..]);
      assert fields == [fields[0]] + fields[1..];
    }
  }

  /** For distinct fields no two pairs share a key. */
  lemma {:induction false} EntriesOfDistinct(e: Expression, fields: seq<Field>)
    requires forall i, j :: 0 <= i < j < |fields| ==> fields[i] != fields[j]
    ensures DistinctKeys(EntriesOf(e, fields))
    decreases |fields|
  {
    if |fields| > 0 && fields[0] in e {
      var g, tail := fields[0], fields[1..];
      var rest := EntriesOf(e, tail);
      EntriesOfDistinct(e, tail);
      EntriesOfSound(e, tail);
      assert g !in tail by {
        forall i | 0 <= i < |tail| ensures tail[i] != g {
          assert tail[i] == fields[i + 1];
        }
      }
      var entries := EntriesOf(e, fields);
      assert entries == [(Name(g), e[g])] + rest;
      forall i, j | 0 <= i < j < |entries| ensures entries[i].0 != entries[j].0 {
        assert entries[j] == rest[j - 1];
        if i > 0 {
          assert entries[i] == rest[i - 1];
        } else {
          assert Name(FieldOf(rest[j - 1].0).value) == rest[j - 1].0;
        }
      }
    } else if |fields| > 0 {
      EntriesOfDistinct(e, fields[1..]);
    }
  }

  /** When every one of the fields is present, there is one pair per field,
      in the same order. */
  lemma {:induction false} EntriesOfPresent(e: Expression, fields: seq<Field>)
    requires forall i :: 0 <= i < |fields| ==> fields[i] in e
    ensures |EntriesOf(e, fields)| == |fields|
    ensures forall i :: 0 <= i < |fields| ==> EntriesOf(e, fields)[i] == (Name(fields[i]), e[fields[i]])
    decreases |fields|
  {
    if |fields| > 0 {
      EntriesOfPresent(e, fields[1..]);
      assert fields[0] in e;
      forall i | 0 < i < |fields| ensures EntriesOf(e, fields)[i] == (Name(fields[i]), e[fields[i]]) {
        assert fields[i] == fields[1..][i - 1];
      }
    }
  }

  /** getAll(): the state object itself, seen as its own properties in
      enumeration order. It names each present field once, under its
      property name and with its list, and nothing else, so that the
      expression it describes is exactly the state; a complete state gives
      the six fields in build order. */
  function GetAll(e: Expression): (entries: seq<Entry>)
    ensures |entries| <= FieldCount
    ensures KnownKeys(entries) && DistinctKeys(entries)
    ensures FromEntries(entries) == e
    ensures Complete(e) ==>
              && |entries| == FieldCount
              && forall i :: 0 <= i < FieldCount ==> entries[i] == (Name(Order[i]), e[Order[i]])
  {
    EntriesDescribe(e);
    EntriesComplete(e);
    EntriesOf(e, Order)
  }

  /** A complete expression gives one pair per field, in the fixed order. */
  lemma EntriesComplete(e: Expression)
    ensures Complete(e) ==>
              && |EntriesOf(e, Order)| == FieldCount
              && forall i :: 0 <= i < FieldCount ==> EntriesOf(e, Order)[i] == (Name(Order[i]), e[Order[i]])
  {
    if Complete(e) {
      EntriesOfPresent(e, Order);
    }
  }

  /** The pairs for the fixed order describe the expression exactly. */
  lemma EntriesDescribe(e: Expression)
    ensures && KnownKeys(EntriesOf(e, Order))
            && DistinctKeys(EntriesOf(e, Order))
            && FromEntries(EntriesOf(e, Order)) == e
  {
    OrderDistinct();
    OrderCoversFields();
    EntriesOfExact(e, Order);
  }

  /** The pairs for a list naming every field once describe the expression
      exactly. */
  lemma {:induction false} EntriesOfExact(e: Expression, fields: seq<Field>)
    requires forall i, j :: 0 <= i < j < |fields| ==> fields[i] != fields[j]
    requires forall f: Field :: f in fields
    ensures && KnownKeys(EntriesOf(e, fields))
            && DistinctKeys(EntriesOf(e, fields))
            && FromEntries(EntriesOf(e, fields)) == e
  {
    var entries := EntriesOf(e, fields);
    EntriesOfDistinct(e, fields);
    EntriesOfSound(e, fields);
    assert e.Keys <= KeyFields(entries) by {
      forall f | f in e ensures f in KeyFields(entries) {
        EntriesOfCover(e, fields);
        var i :| 0 <= i < |entries| && entries[i] == (Name(f), e[f]);
        assert FieldOf(entries[i].0) == Some(f);
      }
    }
    FromEntriesOfPairs(entries, e);
  }

  /** Pairs that each give a present field its list, and that leave out no
      present field, describe the expression exactly. */
  lemma {:induction false} FromEntriesOfPairs(entries: seq<Entry>, e: Expression)
    requires KnownKeys(entries) && DistinctKeys(entries)
    requires forall i :: 0 <= i < |entries| ==>
               FieldOf(entries[i].0).value in e && entries[i].1 == e[FieldOf(entries[i].0).value]
    requires e.Keys <= KeyFields(entries)
    ensures FromEntries(entries) == e
  {
    var r := FromEntries(entries);
    forall f | f in r ensures f in e && r[f] == e[f] {
      var i :| 0 <= i < |entries| && FieldOf(entries[i].0).value == f;
    }
  }

  /** setAll(object). More than six keys, or any property failing
      validation, is refused (the first failure in enumeration order is
      reported) and nothing changes; otherwise the expression becomes the
      object, with no trace of the previous one. */
  function SetAll(e: Expression, entries: seq<Entry>): (r: Update)
    requires DistinctKeys(entries)
    ensures |entries| > FieldCount ==> r == Update(e, Fail(TooManyFields))
    ensures r.outcome == ValidateEntries(entries)
    ensures r.outcome.Fail? ==> r.expr == e
    ensures r.outcome.Pass? ==>
              && (forall f :: f in r.expr <==> exists i :: 0 <= i < |entries| && entries[i].0 == Name(f))
              && (forall i :: 0 <= i < |entries| ==> r.expr[FieldOf(entries[i].0).value] == entries[i].1)
  {
    var check := ValidateEntries(entries);
    if check.Fail? then Update(e, check)
    else
      assert KnownKeys(entries) by {
        forall i | 0 <= i < |entries| ensures FieldOf(entries[i].0).Some? {
          assert Validate(List(entries[i].1), entries[i].0).Pass?;
        }
      }
      Update(FromEntries(entries), Pass)
  }
}
