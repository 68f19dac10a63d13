/** Properties relating the builder's operations to one another: the
    constructor and build, add and remove, get and the stored values, getAll
    and setAll. */
module BuilderFacts {
  import opened Outcomes
  import opened Strings
  import opened Fields
  import opened Validator
  import opened ValidatorFacts
  import opened Builder

  /** `k` wildcard tokens. */
  function Stars(k: nat): (r: seq<string>)
    ensures |r| == k && forall i :: 0 <= i < k ==> r[i] == "*"
  {
    seq(k, _ => "*")
  }

  /** Every field of the default expression holds the wildcard. */
  lemma DefaultFields()
    ensures forall f: Field :: f in Default && Default[f] == Wildcard
  {
    OrderCoversFields();
  }

  /** A builder made without an argument (or with "") has every field at
      the wildcard and builds "* * * * * *". */
  lemma DefaultBuild()
    ensures New("") == Ok(Default)
    ensures forall f: Field :: f in Default && Default[f] == Wildcard
    ensures Build(Default) == "* * * * * *"
  {
    DefaultFields();
    DefaultTexts();
    SixWildcards();
  }

  /** The six field texts of the default expression. */
  lemma DefaultTexts()
    ensures Complete(Default) && FieldTexts(Default) == ["*", "*", "*", "*", "*", "*"]
  {
    DefaultFields();
  }

  lemma SixWildcards()
    ensures Join(["*", "*", "*", "*", "*", "*"], ' ') == "* * * * * *"
  {
    var texts := ["*", "*", "*", "*", "*", "*"];
    assert texts[1..] == ["*", "*", "*", "*", "*"];
    assert texts[1..][1..] == ["*", "*", "*", "*"];
    assert texts[1..][1..][1..] == ["*", "*", "*"];
    assert texts[1..][1..][1..][1..] == ["*", "*"];
    assert texts[1..][1..][1..][1..][1..] == ["*"];
    assert Join(["*", "*"], ' ') == "* *";
    assert Join(["*", "*", "*"], ' ') == "* * *";
    assert Join(["*", "*", "*", "*"], ' ') == "* * * *";
    assert Join(["*", "*", "*", "*", "*"], ' ') == "* * * * *";
  }

  /** Constructor round trip: up to six non-empty, space-free tokens, each
      accepted for the field of its position, build back into themselves
      followed by one wildcard per missing trailing field. */
  lemma NewBuildRoundTrip(tokens: seq<string>)
    requires 1 <= |tokens| <= FieldCount
    requires forall i :: 0 <= i < |tokens| ==> tokens[i] != "" && ' ' !in tokens[i]
    requires forall i :: 0 <= i < |tokens| ==> Validate(Text(tokens[i]), PositionName(i)).Pass?
    ensures New(Join(tokens, ' ')).Ok?
    ensures Build(New(Join(tokens, ' ')).value) == Join(tokens + Stars(FieldCount - |tokens|), ' ')
  {
    NewOfTokens(tokens);
    BuildOfSlots(New(Join(tokens, ' ')).value, tokens);
  }

  /** The expression constructed from joined tokens holds each token's slot. */
  lemma NewOfTokens(tokens: seq<string>)
    requires 1 <= |tokens| <= FieldCount
    requires forall i :: 0 <= i < |tokens| ==> tokens[i] != "" && ' ' !in tokens[i]
    requires forall i :: 0 <= i < |tokens| ==> Validate(Text(tokens[i]), PositionName(i)).Pass?
    ensures New(Join(tokens, ' ')).Ok?
    ensures forall f :: New(Join(tokens, ' ')).value[f] == Slot(tokens, Index(f))
  {
    var init := Join(tokens, ' ');
    JoinStartsWithFirst(tokens, ' ');
    SplitJoin(tokens, ' ');
    assert ValidateTokens(tokens).Pass?;
    NewSlots(init);
  }

  /** The field texts of an expression holding the slot of each token are
      the tokens padded with wildcards. */
  lemma BuildOfSlots(e: Expression, tokens: seq<string>)
    requires |tokens| <= FieldCount
    requires forall i :: 0 <= i < |tokens| ==> tokens[i] != ""
    requires forall f: Field :: f in e && e[f] == Slot(tokens, Index(f))
    ensures FieldTexts(e) == tokens + Stars(FieldCount - |tokens|)
  {
    var padded := tokens + Stars(FieldCount - |tokens|);
    SlotText(e, tokens, Minute);
    SlotText(e, tokens, Hour);
    SlotText(e, tokens, DayOfTheMonth);
    SlotText(e, tokens, MonthOfTheYear);
    SlotText(e, tokens, DayOfTheWeek);
    SlotText(e, tokens, Year);
    assert FieldTexts(e) == padded;
  }

  /** The text of a field holding a token's slot is the padded token. */
  lemma SlotText(e: Expression, tokens: seq<string>, f: Field)
    requires |tokens| <= FieldCount
    requires forall i :: 0 <= i < |tokens| ==> tokens[i] != ""
    requires f in e && e[f] == Slot(tokens, Index(f))
    ensures FieldText(e, f) == (tokens + Stars(FieldCount - |tokens|))[Index(f)]
  {
  }

  /** A constructed expression holds, for each field, the slot of the token
      at the field's position. */
  lemma NewSlots(init: string)
    requires init != "" && ValidateTokens(Split(init, ' ')).Pass?
    ensures New(init).Ok?
    ensures forall f :: New(init).value[f] == Slot(Split(init, ' '), Index(f))
  {
    OrderCoversFields();
  }

  /** A double space puts an empty token into the split, and the empty token
      fails the first-character test, so construction throws. */
  lemma NewRejectsDoubleSpace(a: string, b: string)
    ensures New(a + "  " + b).Err?
  {
    var init := a + "  " + b;
    assert init[|a|] == ' ' && init[|a| + 1] == ' ';
    AdjacentSeparators(init, |a|, ' ');
    var tokens := Split(init, ' ');
    var k :| 1 <= k < |tokens| && tokens[k] == "";
    if |tokens| <= FieldCount {
      assert Validate(Text(tokens[k]), PositionName(k)) == Fail(BadCharacter);
    }
  }

  /** A string of more than six tokens throws the field-count error whether
      or not its tokens are valid. */
  lemma NewRejectsTooManyTokens(tokens: seq<string>)
    requires |tokens| > FieldCount
    requires FreeOf(tokens, ' ')
    ensures New(Join(tokens, ' ')) == Err(TooManyFields)
  {
    SplitJoin(tokens, ' ');
    JoinStartsWithFirst(tokens, ' ');
    assert tokens[0] + [' '] <= Join(tokens, ' ');
  }

  /** get returns text that splits back into the field's values. */
  lemma GetSplitsBack(e: Expression, name: string)
    requires Holds(e, name)
    requires |e[FieldOf(name).value]| > 0 && FreeOf(e[FieldOf(name).value], ',')
    ensures Get(e, name).Ok? && Split(Get(e, name).value, ',') == e[FieldOf(name).value]
  {
    SplitJoin(e[FieldOf(name).value], ',');
  }

  /** Adding the same value twice is the same as adding it once. */
  lemma AddValueIdempotent(e: Expression, value: string, name: string)
    requires Holds(e, name)
    ensures AddValue(AddValue(e, value, name).expr, value, name) == AddValue(e, value, name)
  {
    var once := AddValue(e, value, name);
    if once.outcome.Pass? {
      var f := FieldOf(name).value;
      assert value in once.expr[f];
      if once.expr[f] == Wildcard {
        assert once.expr[f] == [value];
      }
    }
  }

  /** On a wildcard field, get after one addValue gives the value, and after
      a second, different one gives both in insertion order. */
  lemma AddThenGet(e: Expression, v1: string, v2: string, name: string)
    requires Holds(e, name) && e[FieldOf(name).value] == Wildcard
    requires Validate(Text(v1), name).Pass? && Validate(Text(v2), name).Pass?
    requires v1 != v2 && v1 != "*"
    ensures Get(AddValue(e, v1, name).expr, name) == Ok(v1)
    ensures Get(AddValue(AddValue(e, v1, name).expr, v2, name).expr, name) == Ok(v1 + "," + v2)
  {
    var f := FieldOf(name).value;
    var e1 := AddValue(e, v1, name).expr;
    assert e1[f] == [v1];
    var e2 := AddValue(e1, v2, name).expr;
    assert e2[f] == [v1, v2];
    assert Join([v1, v2], ',') == v1 + "," + v2;
  }

  /** The wildcard is not special to addValue on an explicit field: "*" is
      appended beside the explicit values. */
  lemma WildcardJoinsExplicitValues(e: Expression, name: string)
    requires Holds(e, name)
    requires e[FieldOf(name).value] != Wildcard && "*" !in e[FieldOf(name).value]
    ensures AddValue(e, "*", name).outcome == Pass
    ensures AddValue(e, "*", name).expr[FieldOf(name).value] == e[FieldOf(name).value] + ["*"]
  {
    assert Validate(Text("*"), name) == Pass;
  }

  /** addValue keeps a field free of duplicates. */
  lemma AddValueKeepsDistinct(e: Expression, value: string, name: string)
    requires Holds(e, name)
    requires var s := e[FieldOf(name).value]; forall i, j :: 0 <= i < j < |s| ==> s[i] != s[j]
    ensures var s := AddValue(e, value, name).expr[FieldOf(name).value];
            forall i, j :: 0 <= i < j < |s| ==> s[i] != s[j]
  {
  }

  /** removeValue undoes addValue of a value the field did not hold (or of
      any value on a wildcard field). */
  lemma RemoveUndoesAdd(e: Expression, value: string, name: string)
    requires Holds(e, name) && WellFormed(e)
    requires value !in e[FieldOf(name).value] || e[FieldOf(name).value] == Wildcard
    ensures RemoveValue(AddValue(e, value, name).expr, value, name).expr == e
  {
    var f := FieldOf(name).value;
    var added := AddValue(e, value, name);
    if added.outcome.Pass? {
      if e[f] == Wildcard {
        assert added.expr[f] == [value];
        if value != "*" {
          assert Without([value], value) == [];
        }
        assert RemoveValue(added.expr, value, name).expr[f] == Wildcard;
        assert RemoveValue(added.expr, value, name).expr == added.expr[f := Wildcard];
      } else {
        assert added.expr[f] == e[f] + [value];
        WithoutAppended(e[f], value);
        assert RemoveValue(added.expr, value, name).expr == e;
      }
    } else {
      assert added.expr == e;
      if e[f] != Wildcard {
        assert Without(e[f], value) == e[f];
      }
    }
  }

  /** Filtering out a value that was appended to a list free of it gives
      the list back. */
  lemma {:induction false} WithoutAppended(list: seq<string>, value: string)
    requires value !in list
    ensures Without(list + [value], value) == list
    decreases |list|
  {
    if |list| > 0 {
      assert (list + [value])[1..] == list[1..] + [value];
      WithoutAppended(list[1..], value);
      assert list == [list[0]] + list[1..];
    } else {
      assert [value][1..] == [];
    }
  }

  /** The filter goes element by element: filtering a concatenation
      concatenates the filtered parts. With Without's contract for a single
      value, this fixes the result completely, order included. */
  lemma {:induction false} WithoutConcat(a: seq<string>, b: seq<string>, value: string)
    ensures Without(a + b, value) == Without(a, value) + Without(b, value)
    decreases |a|
  {
    if |a| > 0 {
      assert (a + b)[1..] == a[1..] + b;
      WithoutConcat(a[1..], b, value);
      assert a + b == [a[0]] + (a[1..] + b);
    } else {
      assert a + b == b;
    }
  }

  /** removeValue keeps the surviving values in their order: from a field
      holding `a + b`, the survivors of `a` stay ahead of those of `b`. */
  lemma RemoveValueKeepsOrder(e: Expression, value: string, name: string, a: seq<string>, b: seq<string>)
    requires Holds(e, name) && e[FieldOf(name).value] == a + b && a + b != Wildcard
    requires exists x :: x in a + b && x != value
    ensures RemoveValue(e, value, name) ==
              Update(e[FieldOf(name).value := Without(a, value) + Without(b, value)], Pass)
  {
    WithoutConcat(a, b, value);
  }

  /** Removing "5" from the minutes 5,1,5,2 leaves 1,2 in that order. */
  lemma RemoveFromMinutes(e: Expression)
    requires Minute in e && e[Minute] == ["5", "1", "5", "2"]
    ensures RemoveValue(e, "5", "minute") == Update(e[Minute := ["1", "2"]], Pass)
    ensures Get(RemoveValue(e, "5", "minute").expr, "minute") == Ok("1,2")
  {
    var list := e[Minute];
    assert list == ["5"] + ["1"] + ["5"] + ["2"];
    WithoutConcat(["5"] + ["1"] + ["5"], ["2"], "5");
    WithoutConcat(["5"] + ["1"], ["5"], "5");
    WithoutConcat(["5"], ["1"], "5");
    assert Without(list, "5") == ["1", "2"];
    assert "1" in list && "1" != "5";
    assert Join(["1", "2"], ',') == "1,2";
  }

  /** set judges the array as one value, so an out-of-bounds value after
      the first goes unnoticed: ["5", "99"] is installed as the minutes. */
  lemma SetIgnoresLaterElements(e: Expression)
    ensures Set(e, List(["5", "99"]), "minute") == SetReply(e[Minute := ["5", "99"]], Ok("5,99"))
  {
    ListJudgedByFirstElement(["5", "99"], "minute");
    SingletonListAsText("5", "minute");
    assert Validate(Text("5"), "minute") == Pass by {
      assert Decimal(5) == "5";
      NumberVerdict(5, Minute);
    }
    assert Join(["5", "99"], ',') == "5,99";
  }

  /** parseInt reads a leading minus sign: set(["-5"], "minute") is refused
      as below the minimum, as is set(["-0"], "dayOfTheMonth"), while
      set(["-0"], "minute") is accepted. */
  lemma SetReadsMinusSign(e: Expression)
    ensures Set(e, List(["-5"]), "minute") == SetReply(e, Err(BelowMin))
    ensures Set(e, List(["-0"]), "dayOfTheMonth") == SetReply(e, Err(BelowMin))
    ensures Set(e, List(["-0"]), "minute").reply == Ok("-0")
  {
    assert "-5" == "-" + Decimal(5) && "-0" == "-" + Decimal(0);
    NegativeListVerdict(5, Minute);
    NegativeListVerdict(0, DayOfTheMonth);
    NegativeListVerdict(0, Minute);
  }

  /** set([]) is refused, so set never empties a field. */
  lemma SetEmptyRejected(e: Expression, f: Field)
    ensures Set(e, List([]), Name(f)) == SetReply(e, Err(BadCharacter))
  {
    EmptyListRejected(f);
  }

  /** addValue keeps every present field non-empty. */
  lemma AddValueKeepsWellFormed(e: Expression, value: string, name: string)
    requires WellFormed(e)
    requires Validate(Text(value), name).Pass? ==> Holds(e, name)
    ensures WellFormed(AddValue(e, value, name).expr)
  {
  }

  /** removeValue keeps every present field non-empty: a field it empties
      returns to the wildcard. */
  lemma RemoveValueKeepsWellFormed(e: Expression, value: string, name: string)
    requires WellFormed(e)
    ensures WellFormed(RemoveValue(e, value, name).expr)
  {
    var r := RemoveValue(e, value, name);
    if r.outcome.Pass? {
      var f := FieldOf(name).value;
      if r.expr[f] != Wildcard {
        var x :| x in e[f] && x != value;
        assert multiset(r.expr[f])[x] == multiset(e[f])[x] > 0;
      }
    }
  }

  /** set keeps every present field non-empty, since the empty array fails
      validation. */
  lemma SetKeepsWellFormed(e: Expression, v: Value, name: string)
    requires WellFormed(e)
    ensures WellFormed(Set(e, v, name).expr)
  {
    var s := Set(e, v, name);
    if s.reply.Ok? {
      assert StartsWell(AsText(v));
    }
  }

  /** setAll keeps every present field non-empty, since each array it
      installs passed validation. */
  lemma SetAllKeepsWellFormed(e: Expression, entries: seq<Entry>)
    requires WellFormed(e)
    requires DistinctKeys(entries)
    ensures WellFormed(SetAll(e, entries).expr)
  {
    var a := SetAll(e, entries);
    if a.outcome.Pass? {
      forall i | 0 <= i < |entries| ensures |entries[i].1| > 0 {
        assert Validate(List(entries[i].1), entries[i].0).Pass?;
      }
      forall f | f in a.expr ensures |a.expr[f]| > 0 {
        var i :| 0 <= i < |entries| && entries[i].0 == Name(f);
        assert FieldOf(entries[i].0).value == f;
      }
    }
  }

  /** Each present field's list passes validation as a whole array. */
  predicate ListsValid(e: Expression)
  {
    forall f :: f in e ==> Validate(List(e[f]), Name(f)).Pass?
  }

  /** getAll then setAll with the same object reinstalls the same expression
      whenever each field's list passes validation as a whole array. */
  lemma GetAllSetAllRoundTrip(e: Expression, before: Expression)
    requires ListsValid(e)
    ensures SetAll(before, GetAll(e)) == Update(e, Pass)
  {
    var entries := GetAll(e);
    forall i | 0 <= i < |entries| ensures Validate(List(entries[i].1), entries[i].0).Pass? {
      var f := FieldOf(entries[i].0).value;
      assert Name(f) == entries[i].0;
    }
  }

  /** The round trip above can fail on an expression built entirely from
      accepted calls: addValue accepts the reversed range "40-5" for the day
      of the month (bottom 40 is at least 1, top 5 at most 31), but setAll
      judges the array ["40-5"] by parseInt of its text, 40, which is above
      31. */
  lemma ReversedRangeBreaksRoundTrip()
    ensures && Holds(Default, "dayOfTheMonth")
            && var added := AddValue(Default, "40-5", "dayOfTheMonth");
            && added.outcome == Pass
            && Complete(added.expr)
            && added.expr[DayOfTheMonth] == ["40-5"]
            && DistinctKeys(GetAll(added.expr))
            && SetAll(added.expr, GetAll(added.expr)) == Update(added.expr, Fail(AboveMax))
  {
    DefaultBuild();
    ReversedRangeAccepted();
    var e := Default[DayOfTheMonth := ["40-5"]];
    ReversedRangeSetAll(e);
  }

  /** setAll of getAll's object refuses the reversed range. */
  lemma ReversedRangeSetAll(e: Expression)
    requires e == Default[DayOfTheMonth := ["40-5"]]
    ensures Complete(e) && DistinctKeys(GetAll(e))
    ensures SetAll(e, GetAll(e)) == Update(e, Fail(AboveMax))
  {
    ReversedRangeObjectRefused(e);
  }

  /** setAll's validator stops at the day of the month of getAll's object. */
  lemma ReversedRangeObjectRefused(e: Expression)
    requires e == Default[DayOfTheMonth := ["40-5"]]
    ensures Complete(e)
    ensures ValidateEntries(GetAll(e)) == Fail(AboveMax)
  {
    ReversedRangeChecks(e);
    ThirdEntryFails(GetAll(e));
  }

  /** When the first two properties pass, the object validator reports the
      third property's failure. */
  lemma ThirdEntryFails(entries: seq<Entry>)
    requires 2 < |entries| <= FieldCount
    requires EntryChecks(entries)[0].Pass? && EntryChecks(entries)[1].Pass?
    requires EntryChecks(entries)[2].Fail?
    ensures ValidateEntries(entries) == EntryChecks(entries)[2]
  {
    var checks := EntryChecks(entries);
    FirstFailureAt(checks, 2);
  }

  /** The first failure is the failing check all of whose predecessors
      pass. */
  lemma FirstFailureAt(checks: seq<Outcome>, j: nat)
    requires j < |checks| && checks[j].Fail?
    requires forall i :: 0 <= i < j ==> checks[i].Pass?
    ensures FirstFailure(checks) == checks[j]
  {
  }

  /** The minute and hour arrays of getAll's object pass and the day of the
      month array fails. */
  lemma ReversedRangeChecks(e: Expression)
    requires e == Default[DayOfTheMonth := ["40-5"]]
    ensures && Complete(e)
            && var checks := EntryChecks(GetAll(e));
            && checks[0] == Pass && checks[1] == Pass && checks[2] == Fail(AboveMax)
  {
    ReversedRangeEntries(e);
    WildcardListPasses(Minute);
    WildcardListPasses(Hour);
    ReversedRangeListRefused();
  }

  /** The first three properties of getAll's object. */
  lemma ReversedRangeEntries(e: Expression)
    requires e == Default[DayOfTheMonth := ["40-5"]]
    ensures && Complete(e)
            && var entries := GetAll(e);
            && entries[0] == (Name(Minute), ["*"])
            && entries[1] == (Name(Hour), ["*"])
            && entries[2] == ("dayOfTheMonth", ["40-5"])
  {
    DefaultFields();
  }

  /** addValue accepts "40-5" for the day of the month of a fresh builder. */
  lemma ReversedRangeAccepted()
    ensures AddValue(Default, "40-5", "dayOfTheMonth") == Update(Default[DayOfTheMonth := ["40-5"]], Pass)
  {
    DefaultFields();
    ReversedRangeValid();
  }

  /** "40-5" is a valid day of the month: 40 is only compared with the
      minimum and 5 only with the maximum. */
  lemma ReversedRangeValid()
    ensures Validate(Text("40-5"), "dayOfTheMonth") == Pass
  {
    assert "40-5" == Decimal(40) + "-" + Decimal(5) by {
      assert Decimal(40) == "40" && Decimal(5) == "5";
    }
    RangeVerdictOfNumbers(40, 5, DayOfTheMonth);
  }

  /** The array ["40-5"] is judged by parseInt("40-5"), which is 40. */
  lemma ReversedRangeListRefused()
    ensures Validate(List(["40-5"]), "dayOfTheMonth") == Fail(AboveMax)
  {
    assert AsText(List(["40-5"])) == "40-5";
    ParseIntStopsAtNonDigit("40", "-5");
    assert "40" + "-5" == "40-5";
    assert Decimal(40) == "40";
    DecimalValue(40);
    assert ParseInt("40-5") == Some(40);
  }

  /** The array ["*"] passes for every field: its text has no leading digit. */
  lemma WildcardListPasses(f: Field)
    ensures Validate(List(["*"]), Name(f)) == Pass
  {
    assert AsText(List(["*"])) == "*";
    assert LeadingDigits("*") == "";
  }
}
