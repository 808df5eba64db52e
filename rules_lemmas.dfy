/**
 What the decoder of `Rules` promises about whole parameter texts: which
 entries are dropped, how field names are matched, what each kind of field
 yields, which entry wins for a key, and that one bad token fails the call.
 */
module RuleLemmas {
  import opened Wrappers
  import opened Text
  import opened Rules

  // ---------------------------------------------------------------------------
  // Codes of the enumerations
  // ---------------------------------------------------------------------------

  lemma FrequencyCodeRoundTrip(f: Frequency)
    ensures FrequencyFromCode(f.Code()) == Some(f)
  {
  }

  lemma WeekdaySymbolRoundTrip(w: Weekday)
    ensures WeekdayFromSymbol(w.Symbol()) == Some(w)
  {
  }

  // ---------------------------------------------------------------------------
  // Entry lists
  // ---------------------------------------------------------------------------

  /** Decoding two runs of entries one after the other: the first error wins,
      otherwise the pairs of the first run come before those of the second. */
  lemma {:induction false} DecodeEntriesAppend(a: seq<string>, b: seq<string>, parseDate: string -> Option<DateTime>)
    ensures DecodeEntries(a + b, parseDate) ==
      if DecodeEntries(a, parseDate).Failure? then DecodeEntries(a, parseDate)
      else AfterPairs(DecodeEntries(a, parseDate).value, DecodeEntries(b, parseDate))
    decreases |a|
  {
    if a == [] {
      assert a + b == b;
      AfterNoPairs(DecodeEntries(b, parseDate));
    } else {
      assert (a + b)[0] == a[0] && (a + b)[1..] == a[1..] + b;
      DecodeEntriesAppend(a[1..], b, parseDate);
      var rest := DecodeEntries(a[1..], parseDate);
      match DecodeEntry(a[0], parseDate)
      case Failure(_) =>
      case Success(None) =>
      case Success(Some(pair)) =>
        if rest.Success? {
          AfterPairsAppend([pair], rest.value, DecodeEntries(b, parseDate));
        }
    }
  }

  /** An entry that contributes nothing can be taken out of the list. */
  lemma DroppedEntryHasNoEffect(pre: seq<string>, e: string, post: seq<string>, parseDate: string -> Option<DateTime>)
    requires DecodeEntry(e, parseDate) == Success(None)
    ensures DecodeEntries(pre + [e] + post, parseDate) == DecodeEntries(pre + post, parseDate)
  {
    assert pre + [e] + post == pre + ([e] + post);
    assert ([e] + post)[1..] == post;
    DecodeEntriesAppend(pre, [e] + post, parseDate);
    DecodeEntriesAppend(pre, post, parseDate);
  }

  // ---------------------------------------------------------------------------
  // Parameter texts
  // ---------------------------------------------------------------------------

  /** An entry that contributes nothing may be cut out of the middle of a text. */
  lemma DroppedEntryInText(s: string, e: string, t: string, parseDate: string -> Option<DateTime>)
    requires ';' !in e
    requires DecodeEntry(e, parseDate) == Success(None)
    ensures Decode(Some(s + ";" + e + ";" + t), parseDate) == Decode(Some(s + ";" + t), parseDate)
  {
    assert s + ";" + e + ";" + t == s + [';'] + (e + [';'] + t);
    assert s + ";" + t == s + [';'] + t;
    SplitAppend(s, e + [';'] + t, ';');
    SplitAppend(e, t, ';');
    SplitAppend(s, t, ';');
    SplitWithoutSeparator(e, ';');
    assert Split(s, ';') + ([e] + Split(t, ';')) == Split(s, ';') + [e] + Split(t, ';');
    DroppedEntryHasNoEffect(Split(s, ';'), e, Split(t, ';'), parseDate);
  }

  /** An entry that contributes nothing may be cut off the end of a text. */
  lemma DroppedEntryAtEnd(s: string, e: string, parseDate: string -> Option<DateTime>)
    requires ';' !in e
    requires DecodeEntry(e, parseDate) == Success(None)
    ensures Decode(Some(s + ";" + e), parseDate) == Decode(Some(s), parseDate)
  {
    assert s + ";" + e == s + [';'] + e;
    SplitAppend(s, e, ';');
    SplitWithoutSeparator(e, ';');
    DroppedEntryHasNoEffect(Split(s, ';'), e, [], parseDate);
    assert Split(s, ';') + [e] + [] == Split(s, ';') + [e];
    assert Split(s, ';') + [] == Split(s, ';');
  }

  /** An entry that contributes nothing may be cut off the start of a text. */
  lemma DroppedEntryAtStart(e: string, t: string, parseDate: string -> Option<DateTime>)
    requires ';' !in e
    requires DecodeEntry(e, parseDate) == Success(None)
    ensures Decode(Some(e + ";" + t), parseDate) == Decode(Some(t), parseDate)
  {
    assert e + ";" + t == e + [';'] + t;
    SplitAppend(e, t, ';');
    SplitWithoutSeparator(e, ';');
    DroppedEntryHasNoEffect([], e, Split(t, ';'), parseDate);
    assert [] + [e] + Split(t, ';') == [e] + Split(t, ';');
    assert [] + Split(t, ';') == Split(t, ';');
  }

  /** An entry that is not exactly `field:value` is dropped. */
  lemma MalformedEntryDropped(e: string, parseDate: string -> Option<DateTime>)
    requires |Split(e, ':')| != 2
    ensures DecodeEntry(e, parseDate) == Success(None)
  {
  }

  /** A malformed entry changes nothing, in the middle, at the end or at the
      start of a text. */
  lemma MalformedEntryIgnored(s: string, e: string, t: string, parseDate: string -> Option<DateTime>)
    requires ';' !in e && |Split(e, ':')| != 2
    ensures Decode(Some(s + ";" + e + ";" + t), parseDate) == Decode(Some(s + ";" + t), parseDate)
    ensures Decode(Some(s + ";" + e), parseDate) == Decode(Some(s), parseDate)
    ensures Decode(Some(e + ";" + t), parseDate) == Decode(Some(t), parseDate)
  {
    MalformedEntryDropped(e, parseDate);
    DroppedEntryInText(s, e, t, parseDate);
    DroppedEntryAtEnd(s, e, parseDate);
    DroppedEntryAtStart(e, t, parseDate);
  }

  /** A trailing `;` leaves an empty entry behind, which is dropped. */
  lemma TrailingSeparatorIgnored(s: string, parseDate: string -> Option<DateTime>)
    ensures Decode(Some(s + ";"), parseDate) == Decode(Some(s), parseDate)
  {
    assert Split("", ':') == [""];
    DroppedEntryAtEnd(s, "", parseDate);
    assert s + ";" + "" == s + ";";
  }

  /** `field:value` splits into exactly its field and its value. */
  lemma EntryParts(field: string, value: string)
    requires ':' !in field && ':' !in value
    ensures Split(field + ":" + value, ':') == [field, value]
  {
    assert field + ":" + value == field + [':'] + value;
    SplitAppend(field, value, ':');
    SplitWithoutSeparator(field, ':');
    SplitWithoutSeparator(value, ':');
  }

  /** A well-formed entry is converted under its lower-cased field name. */
  lemma EntryUsesLowerCasedField(f: string, v: string, parseDate: string -> Option<DateTime>)
    requires ':' !in f && ':' !in v
    ensures DecodeEntry(f + ":" + v, parseDate) == ConvertField(Lower(f), v, parseDate)
  {
    EntryParts(f, v);
  }

  /** Field names are matched without regard to case. */
  lemma FieldNameCaseInsensitive(f: string, g: string, v: string, parseDate: string -> Option<DateTime>)
    requires ':' !in f && ':' !in g && ':' !in v
    requires Lower(f) == Lower(g)
    ensures DecodeEntry(f + ":" + v, parseDate) == DecodeEntry(g + ":" + v, parseDate)
  {
    EntryUsesLowerCasedField(f, v, parseDate);
    EntryUsesLowerCasedField(g, v, parseDate);
  }

  lemma EntryHasNoSemicolon(f: string, v: string)
    requires ';' !in f && ';' !in v
    ensures ';' !in f + ":" + v
  {
    var e := f + ":" + v;
    assert forall i :: 0 <= i < |e| ==> e[i] == ':' || e[i] in f || e[i] in v;
  }

  /** A field whose lower-cased name is not on the allow-list is dropped. */
  lemma UnknownFieldDropped(f: string, v: string, parseDate: string -> Option<DateTime>)
    requires ':' !in f && ':' !in v
    requires Lower(f) !in RuleFields
    ensures DecodeEntry(f + ":" + v, parseDate) == Success(None)
  {
    EntryUsesLowerCasedField(f, v, parseDate);
  }

  /** An entry for a field that is not on the allow-list changes nothing, in
      the middle, at the end or at the start of a text. */
  lemma UnknownFieldIgnored(s: string, f: string, v: string, t: string, parseDate: string -> Option<DateTime>)
    requires ':' !in f && ':' !in v && ';' !in f && ';' !in v
    requires Lower(f) !in RuleFields
    ensures Decode(Some(s + ";" + (f + ":" + v) + ";" + t), parseDate) == Decode(Some(s + ";" + t), parseDate)
    ensures Decode(Some(s + ";" + (f + ":" + v)), parseDate) == Decode(Some(s), parseDate)
    ensures Decode(Some((f + ":" + v) + ";" + t), parseDate) == Decode(Some(t), parseDate)
  {
    UnknownFieldDropped(f, v, parseDate);
    EntryHasNoSemicolon(f, v);
    DroppedEntryInText(s, f + ":" + v, t, parseDate);
    DroppedEntryAtEnd(s, f + ":" + v, parseDate);
    DroppedEntryAtStart(f + ":" + v, t, parseDate);
  }

  /** `until` keeps its whole value, handed to the date parser; a value the
      parser rejects fails the call. */
  lemma UntilField(v: string, parseDate: string -> Option<DateTime>)
    ensures parseDate(v).None? ==> ConvertField("until", v, parseDate) == Failure(InvalidDateFormat(v))
    ensures parseDate(v).Some? ==>
      ConvertField("until", v, parseDate) == Success(Some(("until", Until(parseDate(v).value))))
  {
  }

  /** `byday` and `byweekday` give one weekday constant per comma token, in
      order, always under `byweekday`; the first unknown token fails the call. */
  lemma WeekdayField(name: string, v: string, parseDate: string -> Option<DateTime>)
    requires name == "byday" || name == "byweekday"
    ensures var tokens := Split(v, ',');
      var r := ConvertField(name, v, parseDate);
      && (r.Success? <==> forall i :: 0 <= i < |tokens| ==> WeekdayFromSymbol(tokens[i]).Some?)
      && (r.Success? ==>
            r.value.Some? && r.value.value.0 == "byweekday" && r.value.value.1.Weekdays? &&
            |r.value.value.1.days| == |tokens| &&
            forall i :: 0 <= i < |tokens| ==> WeekdayFromSymbol(tokens[i]) == Some(r.value.value.1.days[i]))
      && (r.Failure? ==>
            exists i :: 0 <= i < |tokens| && r.error == UnknownWeekdaySymbol(tokens[i]) &&
              WeekdayFromSymbol(tokens[i]).None? &&
              forall j :: 0 <= j < i ==> WeekdayFromSymbol(tokens[j]).Some?)
  {
  }

  /** Every other allowed field gives one integer per comma token, in order,
      under its own name; the first token that is not an integer (the empty
      token included) fails the call. */
  lemma IntegerField(name: string, v: string, parseDate: string -> Option<DateTime>)
    requires name in RuleFields
    requires name != "until" && name != "byday" && name != "byweekday"
    ensures var tokens := Split(v, ',');
      var r := ConvertField(name, v, parseDate);
      && (r.Success? <==> forall i :: 0 <= i < |tokens| ==> ParseInt(tokens[i]).Some?)
      && (r.Success? ==>
            r.value.Some? && r.value.value.0 == name && r.value.value.1.Ints? &&
            |r.value.value.1.values| == |tokens| &&
            forall i :: 0 <= i < |tokens| ==> ParseInt(tokens[i]) == Some(r.value.value.1.values[i]))
      && (r.Failure? ==>
            exists i :: 0 <= i < |tokens| && r.error == InvalidIntegerToken(tokens[i]) &&
              ParseInt(tokens[i]).None? &&
              forall j :: 0 <= j < i ==> ParseInt(tokens[j]).Some?)
  {
  }

  /** A single integer still gives a one-element list. */
  lemma SingleIntegerGivesList(name: string, n: int, parseDate: string -> Option<DateTime>)
    requires name in RuleFields
    requires name != "until" && name != "byday" && name != "byweekday"
    ensures ConvertField(name, ShowInt(n), parseDate) == Success(Some((name, Ints([n]))))
  {
    ShowIntAvoids(n, ',');
    ParseShowInt(n);
    SplitWithoutSeparator(ShowInt(n), ',');
    IntegerField(name, ShowInt(n), parseDate);
    var r := ConvertField(name, ShowInt(n), parseDate);
    assert r.Success?;
    assert r.value.value.1.values == [n];
  }

  // ---------------------------------------------------------------------------
  // Repeated keys and errors
  // ---------------------------------------------------------------------------

  lemma ToDictAppend(pairs: seq<Pair>, pair: Pair)
    ensures ToDict(pairs + [pair]) == ToDict(pairs)[pair.0 := pair.1]
  {
    assert (pairs + [pair])[..|pairs|] == pairs;
  }

  /** An entry added at the end overrides whatever earlier entries stored
      under its key, `byday` after `byweekday` and the other way round included. */
  lemma LaterEntryOverrides(s: string, e: string, key: string, v: Value, parseDate: string -> Option<DateTime>)
    requires ';' !in e
    requires DecodeEntry(e, parseDate) == Success(Some((key, v)))
    requires Decode(Some(s), parseDate).Success?
    ensures Decode(Some(s + ";" + e), parseDate) == Success(Decode(Some(s), parseDate).value[key := v])
  {
    assert s + ";" + e == s + [';'] + e;
    SplitAppend(s, e, ';');
    SplitWithoutSeparator(e, ';');
    DecodeEntriesAppend(Split(s, ';'), [e], parseDate);
    assert [e][1..] == [];
    ToDictAppend(DecodeEntries(Split(s, ';'), parseDate).value, (key, v));
  }

  /** An entry that fails after entries that decode fails the whole call, with
      its own error, whatever follows it. */
  lemma FailingEntryAborts(s: string, e: string, t: string, err: ParamError, parseDate: string -> Option<DateTime>)
    requires ';' !in e
    requires DecodeEntry(e, parseDate) == Failure(err)
    requires Decode(Some(s), parseDate).Success?
    ensures Decode(Some(s + ";" + e + ";" + t), parseDate) == Failure(err)
  {
    assert s + ";" + e + ";" + t == s + [';'] + (e + [';'] + t);
    SplitAppend(s, e + [';'] + t, ';');
    SplitAppend(e, t, ';');
    SplitWithoutSeparator(e, ';');
    DecodeEntriesAppend(Split(s, ';'), [e] + Split(t, ';'), parseDate);
    assert ([e] + Split(t, ';'))[0] == e;
  }

  /** A first entry that fails fails the whole call with its own error,
      whatever follows it. */
  lemma FailingEntryAtStart(e: string, t: string, err: ParamError, parseDate: string -> Option<DateTime>)
    requires ';' !in e
    requires DecodeEntry(e, parseDate) == Failure(err)
    ensures Decode(Some(e + ";" + t), parseDate) == Failure(err)
  {
    assert e + ";" + t == e + [';'] + t;
    SplitAppend(e, t, ';');
    SplitWithoutSeparator(e, ';');
    assert ([e] + Split(t, ';'))[0] == e;
  }

  /** A text of one entry that decodes gives a dictionary of that one pair. */
  lemma SingleEntryText(e: string, key: string, v: Value, parseDate: string -> Option<DateTime>)
    requires ';' !in e
    requires DecodeEntry(e, parseDate) == Success(Some((key, v)))
    ensures Decode(Some(e), parseDate) == Success(map[key := v])
  {
    SplitWithoutSeparator(e, ';');
    DecodeEntriesAppend([], [e], parseDate);
    assert [e][1..] == [];
    assert [(key, v)] + [] == [(key, v)];
    assert DecodeEntries([e], parseDate) == Success([(key, v)]);
    assert [(key, v)][..0] == [];
    assert ToDict([(key, v)]) == ToDict([])[key := v];
  }

  // ---------------------------------------------------------------------------
  // Writing values back as text
  // ---------------------------------------------------------------------------

  /** The tokens that spell `ns`, one decimal literal per integer. */
  function IntTokens(ns: seq<int>): seq<string>
  {
    seq(|ns|, i requires 0 <= i < |ns| => ShowInt(ns[i]))
  }

  /** The tokens that spell `days`, one weekday name per constant. */
  function WeekdayTokens(days: seq<Weekday>): seq<string>
  {
    seq(|days|, i requires 0 <= i < |days| => days[i].Symbol())
  }

  /** A comma-separated list of integers is read back as that list, in order. */
  lemma IntegerListRoundTrip(name: string, ns: seq<int>, parseDate: string -> Option<DateTime>)
    requires name in RuleFields
    requires name != "until" && name != "byday" && name != "byweekday"
    requires |ns| >= 1
    ensures ConvertField(name, Join(IntTokens(ns), ','), parseDate) == Success(Some((name, Ints(ns))))
  {
    var tokens := IntTokens(ns);
    forall i | 0 <= i < |tokens|
      ensures ',' !in tokens[i] && ParseInt(tokens[i]) == Some(ns[i])
    {
      ShowIntAvoids(ns[i], ',');
      ParseShowInt(ns[i]);
    }
    SplitOfJoin(tokens, ',');
    IntegerField(name, Join(tokens, ','), parseDate);
    var r := ConvertField(name, Join(tokens, ','), parseDate);
    assert r.Success?;
    assert r.value.value.1.values == ns;
  }

  /** A comma-separated list of weekday names is read back as that list, in
      order, under `byweekday`. */
  lemma WeekdayListRoundTrip(name: string, days: seq<Weekday>, parseDate: string -> Option<DateTime>)
    requires name == "byday" || name == "byweekday"
    requires |days| >= 1
    ensures ConvertField(name, Join(WeekdayTokens(days), ','), parseDate) == Success(Some(("byweekday", Weekdays(days))))
  {
    var tokens := WeekdayTokens(days);
    forall i | 0 <= i < |tokens|
      ensures ',' !in tokens[i] && WeekdayFromSymbol(tokens[i]) == Some(days[i])
    {
      WeekdaySymbolRoundTrip(days[i]);
    }
    SplitOfJoin(tokens, ',');
    WeekdayField(name, Join(tokens, ','), parseDate);
    var r := ConvertField(name, Join(tokens, ','), parseDate);
    assert r.Success?;
    assert r.value.value.1.days == days;
  }

  /** The allow-listed names are lower-case and hold neither separator. */
  lemma FieldNamePlain(name: string)
    requires name in RuleFields
    ensures ':' !in name && ';' !in name && Lower(name) == name
  {
    assert forall i :: 0 <= i < |name| ==> 'a' <= name[i] <= 'z';
    LowerOfLowercase(name);
  }

  /** A spelled-out list of integers holds neither entry separator. */
  lemma IntTextPlain(ns: seq<int>)
    requires |ns| >= 1
    ensures ':' !in Join(IntTokens(ns), ',') && ';' !in Join(IntTokens(ns), ',')
  {
    var tokens := IntTokens(ns);
    forall i | 0 <= i < |tokens|
      ensures ':' !in tokens[i] && ';' !in tokens[i]
    {
      ShowIntAvoids(ns[i], ':');
      ShowIntAvoids(ns[i], ';');
    }
    JoinAvoids(tokens, ',', ':');
    JoinAvoids(tokens, ',', ';');
  }

  /** A spelled-out list of weekdays holds neither entry separator. */
  lemma WeekdayTextPlain(days: seq<Weekday>)
    requires |days| >= 1
    ensures ':' !in Join(WeekdayTokens(days), ',') && ';' !in Join(WeekdayTokens(days), ',')
  {
    var tokens := WeekdayTokens(days);
    forall i | 0 <= i < |tokens|
      ensures ':' !in tokens[i] && ';' !in tokens[i]
    {
      match days[i]
      case MO => case TU => case WE => case TH => case FR => case SA => case SU =>
    }
    JoinAvoids(tokens, ',', ':');
    JoinAvoids(tokens, ',', ';');
  }

  /** An entry that spells a list of integers for an integer field is read
      back as that field and list. */
  lemma IntegerEntryRoundTrip(name: string, ns: seq<int>, parseDate: string -> Option<DateTime>)
    requires name in RuleFields
    requires name != "until" && name != "byday" && name != "byweekday"
    requires |ns| >= 1
    ensures ';' !in name + ":" + Join(IntTokens(ns), ',')
    ensures DecodeEntry(name + ":" + Join(IntTokens(ns), ','), parseDate) == Success(Some((name, Ints(ns))))
  {
    var v := Join(IntTokens(ns), ',');
    FieldNamePlain(name);
    IntTextPlain(ns);
    EntryHasNoSemicolon(name, v);
    EntryUsesLowerCasedField(name, v, parseDate);
    IntegerListRoundTrip(name, ns, parseDate);
  }

  /** An entry that spells a list of weekdays for `byday` or `byweekday` is
      read back as that list under `byweekday`. */
  lemma WeekdayEntryRoundTrip(name: string, days: seq<Weekday>, parseDate: string -> Option<DateTime>)
    requires name == "byday" || name == "byweekday"
    requires |days| >= 1
    ensures ';' !in name + ":" + Join(WeekdayTokens(days), ',')
    ensures DecodeEntry(name + ":" + Join(WeekdayTokens(days), ','), parseDate) == Success(Some(("byweekday", Weekdays(days))))
  {
    var v := Join(WeekdayTokens(days), ',');
    FieldNamePlain(name);
    WeekdayTextPlain(days);
    EntryHasNoSemicolon(name, v);
    EntryUsesLowerCasedField(name, v, parseDate);
    WeekdayListRoundTrip(name, days, parseDate);
  }

  /** Storing twice under one key keeps the second value only. */
  lemma StoreTwice(key: string, a: Value, b: Value)
    ensures map[key := a][key := b] == map[key := b]
  {
  }

  // ---------------------------------------------------------------------------
  // Whole texts
  // ---------------------------------------------------------------------------

  /** `byday` followed by `byweekday`: both are stored under `byweekday`, and
      the later entry wins. */
  lemma ByDayThenByWeekday(first: seq<Weekday>, second: seq<Weekday>, parseDate: string -> Option<DateTime>)
    requires |first| >= 1 && |second| >= 1
    ensures Decode(Some("byday:" + Join(WeekdayTokens(first), ',') + ";byweekday:" + Join(WeekdayTokens(second), ',')), parseDate)
      == Success(map["byweekday" := Weekdays(second)])
  {
    var e1 := "byday" + ":" + Join(WeekdayTokens(first), ',');
    var e2 := "byweekday" + ":" + Join(WeekdayTokens(second), ',');
    assert "byday:" + Join(WeekdayTokens(first), ',') + ";byweekday:" + Join(WeekdayTokens(second), ',') == e1 + ";" + e2;
    WeekdayEntryRoundTrip("byday", first, parseDate);
    WeekdayEntryRoundTrip("byweekday", second, parseDate);
    SingleEntryText(e1, "byweekday", Weekdays(first), parseDate);
    LaterEntryOverrides(e1, e2, "byweekday", Weekdays(second), parseDate);
    StoreTwice("byweekday", Weekdays(first), Weekdays(second));
  }

  /** `bysecond` is not on the allow-list. */
  lemma BySecondNotAllowed()
    ensures "bysecond" !in RuleFields
  {
  }

  /** `bysecond` is already lower-case. */
  lemma BySecondLowerCase()
    ensures Lower("bysecond") == "bysecond"
  {
    LowerOfLowercase("bysecond");
  }

  /** `bysecond` holds neither separator. */
  lemma BySecondPlain()
    ensures ':' !in "bysecond" && ';' !in "bysecond"
  {
  }

  /** The text of the rule's documentation example, `count`, then `bysecond`,
      then a list of minutes, as the code decodes it: `bysecond` is not on the
      allow-list and is dropped, and `count` becomes a one-element list. */
  lemma DocumentationExample(count: int, second: string, minutes: seq<int>, parseDate: string -> Option<DateTime>)
    requires ':' !in second && ';' !in second
    requires |minutes| >= 1
    ensures Decode(Some(("count" + ":" + ShowInt(count)) + ";" + ("bysecond" + ":" + second) + ";" +
        ("byminute" + ":" + Join(IntTokens(minutes), ','))), parseDate)
      == Success(map["count" := Ints([count]), "byminute" := Ints(minutes)])
  {
    var e1 := "count" + ":" + ShowInt(count);
    var e2 := "bysecond" + ":" + second;
    var e3 := "byminute" + ":" + Join(IntTokens(minutes), ',');
    assert Join(IntTokens([count]), ',') == ShowInt(count) by {
      assert IntTokens([count]) == [ShowInt(count)];
    }
    IntegerEntryRoundTrip("count", [count], parseDate);
    BySecondNotAllowed();
    BySecondLowerCase();
    BySecondPlain();
    UnknownFieldDropped("bysecond", second, parseDate);
    EntryHasNoSemicolon("bysecond", second);
    IntegerEntryRoundTrip("byminute", minutes, parseDate);
    SingleEntryText(e1, "count", Ints([count]), parseDate);
    DroppedEntryAtEnd(e1, e2, parseDate);
    LaterEntryOverrides(e1 + ";" + e2, e3, "byminute", Ints(minutes), parseDate);
  }

  lemma MinutesSpelling()
    ensures Join(IntTokens([1, 2, 4, 5]), ',') == "1,2,4,5"
  {
    assert IntTokens([1, 2, 4, 5]) == ["1", "2", "4", "5"];
  }

  lemma CountSpelling()
    ensures ShowInt(1) == "1"
  {
  }

  lemma DocumentationSpelling()
    ensures ("count" + ":" + ShowInt(1)) + ";" + ("bysecond" + ":" + "1") + ";" +
        ("byminute" + ":" + Join(IntTokens([1, 2, 4, 5]), ',')) == "count:1;bysecond:1;byminute:1,2,4,5"
  {
    MinutesSpelling();
    CountSpelling();
  }

  /** The documentation example itself: the doc-comment promises
      `{'count': 1, 'byminute': [1, 2, 4, 5], 'bysecond': 1}`, but the code
      drops `bysecond` and stores `count` as a list. */
  lemma DocumentationText(parseDate: string -> Option<DateTime>)
    ensures Decode(Some("count:1;bysecond:1;byminute:1,2,4,5"), parseDate)
      == Success(map["count" := Ints([1]), "byminute" := Ints([1, 2, 4, 5])])
  {
    DocumentationSpelling();
    DocumentationExample(1, "1", [1, 2, 4, 5], parseDate);
  }

  /** An integer field with a token that is not an integer fails with the
      first such token. */
  lemma NonIntegerEntry(name: string, v: string, parseDate: string -> Option<DateTime>)
    requires name in RuleFields
    requires name != "until" && name != "byday" && name != "byweekday"
    requires ':' !in v && ';' !in v
    requires exists i :: 0 <= i < |Split(v, ',')| && ParseInt(Split(v, ',')[i]).None?
    ensures ';' !in name + ":" + v
    ensures var tokens := Split(v, ',');
      exists i :: 0 <= i < |tokens| && ParseInt(tokens[i]).None? &&
        (forall j :: 0 <= j < i ==> ParseInt(tokens[j]).Some?) &&
        DecodeEntry(name + ":" + v, parseDate) == Failure(InvalidIntegerToken(tokens[i]))
  {
    FieldNamePlain(name);
    EntryHasNoSemicolon(name, v);
    EntryUsesLowerCasedField(name, v, parseDate);
    IntegerField(name, v, parseDate);
  }

  /** A token that is not an integer, anywhere in an integer field's list,
      fails the whole call with the first such token: after any text that
      decodes, and whatever text follows. */
  lemma NonIntegerTokenFails(s: string, name: string, v: string, t: string, parseDate: string -> Option<DateTime>)
    requires Decode(Some(s), parseDate).Success?
    requires name in RuleFields
    requires name != "until" && name != "byday" && name != "byweekday"
    requires ':' !in v && ';' !in v
    requires exists i :: 0 <= i < |Split(v, ',')| && ParseInt(Split(v, ',')[i]).None?
    ensures var tokens := Split(v, ',');
      exists i :: 0 <= i < |tokens| && ParseInt(tokens[i]).None? &&
        (forall j :: 0 <= j < i ==> ParseInt(tokens[j]).Some?) &&
        Decode(Some(s + ";" + (name + ":" + v) + ";" + t), parseDate) == Failure(InvalidIntegerToken(tokens[i]))
  {
    NonIntegerEntry(name, v, parseDate);
    var tokens := Split(v, ',');
    var i :| 0 <= i < |tokens| && ParseInt(tokens[i]).None? &&
      (forall j :: 0 <= j < i ==> ParseInt(tokens[j]).Some?) &&
      DecodeEntry(name + ":" + v, parseDate) == Failure(InvalidIntegerToken(tokens[i]));
    FailingEntryAborts(s, name + ":" + v, t, InvalidIntegerToken(tokens[i]), parseDate);
  }

  /** The same at the start of a text: the first entry's bad token fails the
      whole call, whatever follows. */
  lemma NonIntegerTokenFailsAtStart(name: string, v: string, t: string, parseDate: string -> Option<DateTime>)
    requires name in RuleFields
    requires name != "until" && name != "byday" && name != "byweekday"
    requires ':' !in v && ';' !in v
    requires exists i :: 0 <= i < |Split(v, ',')| && ParseInt(Split(v, ',')[i]).None?
    ensures var tokens := Split(v, ',');
      exists i :: 0 <= i < |tokens| && ParseInt(tokens[i]).None? &&
        (forall j :: 0 <= j < i ==> ParseInt(tokens[j]).Some?) &&
        Decode(Some((name + ":" + v) + ";" + t), parseDate) == Failure(InvalidIntegerToken(tokens[i]))
  {
    NonIntegerEntry(name, v, parseDate);
    var tokens := Split(v, ',');
    var i :| 0 <= i < |tokens| && ParseInt(tokens[i]).None? &&
      (forall j :: 0 <= j < i ==> ParseInt(tokens[j]).Some?) &&
      DecodeEntry(name + ":" + v, parseDate) == Failure(InvalidIntegerToken(tokens[i]));
    FailingEntryAtStart(name + ":" + v, t, InvalidIntegerToken(tokens[i]), parseDate);
  }

  // ---------------------------------------------------------------------------
  // Repeatability
  // ---------------------------------------------------------------------------

  /** Decoding the same rule twice gives the same result: nothing is cached
      or changed between the calls. */
  method GetParamsTwice(rule: Rule, parseDate: string -> Option<DateTime>)
    returns (first: Result<map<string, Value>, ParamError>, second: Result<map<string, Value>, ParamError>)
    ensures first == second
    ensures first == Decode(rule.params, parseDate)
  {
    first := rule.GetParams(parseDate);
    second := rule.GetParams(parseDate);
  }
}
