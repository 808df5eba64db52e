/**
 A recurrence rule of the calendar application and the decoder that turns its
 `params` text into the keyword options of a recurrence engine.

 The text is a `;`-separated list of `field:value` entries whose value is a
 `,`-separated list of tokens. An entry that is not exactly `field:value`, or
 whose lower-cased field is not on the allow-list, is dropped; a token that
 cannot be converted makes the whole decoding fail. Several entries for one
 key: the last one wins.
 */
module Rules {
  import opened Wrappers
  import opened Text

  // ---------------------------------------------------------------------------
  // Data model
  // ---------------------------------------------------------------------------

  /** The base repeat period of a rule, stored under its upper-case code. */
  datatype Frequency = Yearly | Monthly | Weekly | Daily | Hourly | Minutely | Secondly
  {
    function Code(): string
    {
      match this
      case Yearly => "YEARLY"
      case Monthly => "MONTHLY"
      case Weekly => "WEEKLY"
      case Daily => "DAILY"
      case Hourly => "HOURLY"
      case Minutely => "MINUTELY"
      case Secondly => "SECONDLY"
    }
  }

  /** The frequency stored under `code`, if any. */
  function FrequencyFromCode(code: string): (r: Option<Frequency>)
    ensures r.Some? ==> r.value.Code() == code
  {
    if code == "YEARLY" then Some(Yearly)
    else if code == "MONTHLY" then Some(Monthly)
    else if code == "WEEKLY" then Some(Weekly)
    else if code == "DAILY" then Some(Daily)
    else if code == "HOURLY" then Some(Hourly)
    else if code == "MINUTELY" then Some(Minutely)
    else if code == "SECONDLY" then Some(Secondly)
    else None
  }

  /** The seven weekday constants of the recurrence engine. */
  datatype Weekday = MO | TU | WE | TH | FR | SA | SU
  {
    /** The constant's name in the engine's namespace. */
    function Symbol(): string
    {
      match this
      case MO => "MO"
      case TU => "TU"
      case WE => "WE"
      case TH => "TH"
      case FR => "FR"
      case SA => "SA"
      case SU => "SU"
    }
  }

  /** The weekday constant named `token`: exact, case-sensitive names only. */
  function WeekdayFromSymbol(token: string): (r: Option<Weekday>)
    ensures r.Some? ==> r.value.Symbol() == token
  {
    if token == "MO" then Some(MO)
    else if token == "TU" then Some(TU)
    else if token == "WE" then Some(WE)
    else if token == "TH" then Some(TH)
    else if token == "FR" then Some(FR)
    else if token == "SA" then Some(SA)
    else if token == "SU" then Some(SU)
    else None
  }

  /** A point in time as the date parser returns it. */
  datatype DateTime = DateTime(year: int, month: nat, day: nat, hour: nat, minute: nat, second: nat)

  /** What one recurrence option holds. */
  datatype Value =
    | Until(date: DateTime)
    | Weekdays(days: seq<Weekday>)
    | Ints(values: seq<int>)

  /** The ways decoding can fail; each carries the text it could not convert. */
  datatype ParamError =
    | InvalidDateFormat(text: string)
    | UnknownWeekdaySymbol(token: string)
    | InvalidIntegerToken(token: string)

  type Pair = (string, Value)

  /** The field names the decoder keeps (with the source's repeated `byweekno`). */
  const RuleFields: seq<string> := ["until", "count", "interval", "byminute", "byhour",
    "byday", "byweekday", "bymonthday", "byyearday", "byweekno",
    "byweekno", "bymonth", "bysetpos", "wkst"]

  /** A key that may appear in a decoded result: an allowed field other than
      the input alias `byday`. */
  predicate IsOutputKey(key: string)
  {
    key in RuleFields && key != "byday"
  }

  /** The value kind each output key carries. */
  predicate WellTyped(key: string, v: Value)
  {
    if key == "until" then v.Until?
    else if key == "byweekday" then v.Weekdays?
    else v.Ints?
  }

  // ---------------------------------------------------------------------------
  // Token conversions
  // ---------------------------------------------------------------------------

  /** Each token as a weekday constant, in order; fails on the first token
      that names none. */
  function ParseWeekdays(tokens: seq<string>): (r: Result<seq<Weekday>, ParamError>)
    ensures r.Success? <==> forall i :: 0 <= i < |tokens| ==> WeekdayFromSymbol(tokens[i]).Some?
    ensures r.Success? ==>
      |r.value| == |tokens| && forall i :: 0 <= i < |tokens| ==> WeekdayFromSymbol(tokens[i]) == Some(r.value[i])
    ensures r.Failure? ==>
      exists i :: 0 <= i < |tokens| && WeekdayFromSymbol(tokens[i]).None? &&
        r.error == UnknownWeekdaySymbol(tokens[i]) &&
        forall j :: 0 <= j < i ==> WeekdayFromSymbol(tokens[j]).Some?
  {
    if tokens == [] then Success([])
    else
      match WeekdayFromSymbol(tokens[0])
      case None => Failure(UnknownWeekdaySymbol(tokens[0]))
      case Some(day) =>
        match ParseWeekdays(tokens[1..])
        case Failure(e) => Failure(e)
        case Success(days) => Success([day] + days)
  }

  /** Each token as an integer, in order; fails on the first token that is
      not an integer literal. */
  function ParseInts(tokens: seq<string>): (r: Result<seq<int>, ParamError>)
    ensures r.Success? <==> forall i :: 0 <= i < |tokens| ==> ParseInt(tokens[i]).Some?
    ensures r.Success? ==>
      |r.value| == |tokens| && forall i :: 0 <= i < |tokens| ==> ParseInt(tokens[i]) == Some(r.value[i])
    ensures r.Failure? ==>
      exists i :: 0 <= i < |tokens| && ParseInt(tokens[i]).None? &&
        r.error == InvalidIntegerToken(tokens[i]) &&
        forall j :: 0 <= j < i ==> ParseInt(tokens[j]).Some?
  {
    if tokens == [] then Success([])
    else
      match ParseInt(tokens[0])
      case None => Failure(InvalidIntegerToken(tokens[0]))
      case Some(n) =>
        match ParseInts(tokens[1..])
        case Failure(e) => Failure(e)
        case Success(ns) => Success([n] + ns)
  }

  // ---------------------------------------------------------------------------
  // Decoding (specification)
  // ---------------------------------------------------------------------------

  /** A well-formed `field:value` entry whose field name is already lower-cased:
      dropped when the name is not on the allow-list, otherwise the key and
      value it contributes, or the error that aborts the whole decoding. */
  function ConvertField(field: string, value: string, parseDate: string -> Option<DateTime>): (r: Result<Option<Pair>, ParamError>)
    ensures r.Success? && r.value.Some? ==>
      IsOutputKey(r.value.value.0) && WellTyped(r.value.value.0, r.value.value.1)
    ensures field !in RuleFields ==> r == Success(None)
  {
    if field !in RuleFields then Success(None)
    else if field == "until" then
      match parseDate(value)
      case None => Failure(InvalidDateFormat(value))
      case Some(d) => Success(Some(("until", Until(d))))
    else if field == "byday" || field == "byweekday" then
      match ParseWeekdays(Split(value, ','))
      case Failure(e) => Failure(e)
      case Success(days) => Success(Some(("byweekday", Weekdays(days))))
    else
      match ParseInts(Split(value, ','))
      case Failure(e) => Failure(e)
      case Success(ns) => Success(Some((field, Ints(ns))))
  }

  /** One `;`-separated entry: `None` when it is dropped, the key and value it
      contributes otherwise, or the error that aborts the whole decoding. */
  function DecodeEntry(entry: string, parseDate: string -> Option<DateTime>): (r: Result<Option<Pair>, ParamError>)
    ensures r.Success? && r.value.Some? ==>
      IsOutputKey(r.value.value.0) && WellTyped(r.value.value.0, r.value.value.1)
  {
    var parts := Split(entry, ':');
    if |parts| != 2 then Success(None) else ConvertField(Lower(parts[0]), parts[1], parseDate)
  }

  /** The pairs the entries contribute, in entry order, or the error of the
      first entry that fails. */
  function DecodeEntries(entries: seq<string>, parseDate: string -> Option<DateTime>): (r: Result<seq<Pair>, ParamError>)
    ensures r.Success? ==>
      forall i :: 0 <= i < |r.value| ==> IsOutputKey(r.value[i].0) && WellTyped(r.value[i].0, r.value[i].1)
    ensures r.Success? ==> |r.value| <= |entries|
  {
    if entries == [] then Success([])
    else
      match DecodeEntry(entries[0], parseDate)
      case Failure(e) => Failure(e)
      case Success(contribution) =>
        match DecodeEntries(entries[1..], parseDate)
        case Failure(e) => Failure(e)
        case Success(pairs) =>
          Success(if contribution.Some? then [contribution.value] + pairs else pairs)
  }

  /** The dictionary a list of pairs makes: every key that occurs, bound to
      the value of its last occurrence. */
  function ToDict(pairs: seq<Pair>): (m: map<string, Value>)
    ensures forall k :: k in m <==> exists i :: 0 <= i < |pairs| && pairs[i].0 == k
    ensures forall k :: k in m ==>
      exists i :: 0 <= i < |pairs| && pairs[i] == (k, m[k]) &&
        forall j :: i < j < |pairs| ==> pairs[j].0 != k
  {
    if pairs == [] then map[]
    else
      var init, last := pairs[..|pairs| - 1], pairs[|pairs| - 1];
      var m := ToDict(init);
      assert pairs == init + [last];
      LastPairWins(init, last, m);
      m[last.0 := last.1]
  }

  /** The step of `ToDict`: storing one more pair over the dictionary of the
      earlier ones keeps both of its guarantees. */
  lemma LastPairWins(init: seq<Pair>, last: Pair, m: map<string, Value>)
    requires forall k :: k in m <==> exists i :: 0 <= i < |init| && init[i].0 == k
    requires forall k :: k in m ==>
      exists i :: 0 <= i < |init| && init[i] == (k, m[k]) &&
        forall j :: i < j < |init| ==> init[j].0 != k
    ensures var pairs, r := init + [last], m[last.0 := last.1];
      forall k :: k in r <==> exists i :: 0 <= i < |pairs| && pairs[i].0 == k
    ensures var pairs, r := init + [last], m[last.0 := last.1];
      forall k :: k in r ==>
        exists i :: 0 <= i < |pairs| && pairs[i] == (k, r[k]) &&
          forall j :: i < j < |pairs| ==> pairs[j].0 != k
  {
    var pairs, r := init + [last], m[last.0 := last.1];
    var n := |init|;
    forall k | k in r
      ensures exists i :: 0 <= i < |pairs| && pairs[i] == (k, r[k]) && forall j :: i < j < |pairs| ==> pairs[j].0 != k
    {
      if k == last.0 {
        assert pairs[n] == (k, r[k]);
      } else {
        var i :| 0 <= i < |init| && init[i] == (k, m[k]) && forall j :: i < j < |init| ==> init[j].0 != k;
        assert pairs[i] == (k, r[k]);
        forall j | i < j < |pairs|
          ensures pairs[j].0 != k
        {
          if j < n {
            assert pairs[j] == init[j];
          }
        }
      }
    }
    forall k
      ensures k in r <==> exists i :: 0 <= i < |pairs| && pairs[i].0 == k
    {
      if k in r && k != last.0 {
        var i :| 0 <= i < |init| && init[i].0 == k;
        assert pairs[i].0 == k;
      }
      if k != last.0 && exists i :: 0 <= i < |pairs| && pairs[i].0 == k {
        var i :| 0 <= i < |pairs| && pairs[i].0 == k;
        assert init[i].0 == k;
      }
      if k == last.0 {
        assert pairs[n].0 == k;
      }
    }
  }

  /** The recurrence options `params` encodes; no text at all means none. */
  function Decode(params: Option<string>, parseDate: string -> Option<DateTime>): (r: Result<map<string, Value>, ParamError>)
    ensures params.None? ==> r == Success(map[])
    ensures r.Success? ==> forall k :: k in r.value ==> IsOutputKey(k) && WellTyped(k, r.value[k])
  {
    match params
    case None => Success(map[])
    case Some(text) =>
      match DecodeEntries(Split(text, ';'), parseDate)
      case Failure(e) => Failure(e)
      case Success(pairs) => Success(ToDict(pairs))
  }

  /** `rest` with `pairs` in front, or its error. */
  function AfterPairs(pairs: seq<Pair>, rest: Result<seq<Pair>, ParamError>): Result<seq<Pair>, ParamError>
  {
    if rest.Failure? then rest else Success(pairs + rest.value)
  }

  // ---------------------------------------------------------------------------
  // The stored rule
  // ---------------------------------------------------------------------------

  /** A persisted recurrence rule. */
  class Rule {
    var name: string
    var description: string
    var frequency: Frequency
    var params: Option<string>

    constructor (name: string, description: string, frequency: Frequency, params: Option<string>)
      ensures this.name == name && this.description == description
      ensures this.frequency == frequency && this.params == params
    {
      this.name := name;
      this.description := description;
      this.frequency := frequency;
      this.params := params;
    }

    /** Decodes `params` entry by entry, collecting the pairs in a list and
        turning the list into a dictionary at the end. Changes nothing. */
    method GetParams(parseDate: string -> Option<DateTime>) returns (r: Result<map<string, Value>, ParamError>)
      ensures r == Decode(params, parseDate)
    {
      if params.None? {
        return Success(map[]);
      }
      var entries := Split(params.value, ';');
      var pairs: seq<Pair> := [];
      assert entries[0..] == entries;
      AfterNoPairs(DecodeEntries(entries, parseDate));
      for i := 0 to |entries|
        invariant DecodeEntries(entries, parseDate) == AfterPairs(pairs, DecodeEntries(entries[i..], parseDate))
      {
        DecodeEntriesAt(entries, i, parseDate);
        var contribution := ConvertEntry(entries[i], parseDate);
        if contribution.Failure? {
          return Failure(contribution.error);
        }
        if contribution.value.Some? {
          AfterPairsAppend(pairs, [contribution.value.value], DecodeEntries(entries[i + 1..], parseDate));
          pairs := pairs + [contribution.value.value];
        } else {
          AfterNoPairs(DecodeEntries(entries[i + 1..], parseDate));
        }
      }
      assert entries[|entries|..] == [];
      assert pairs + [] == pairs;
      r := Success(ToDict(pairs));
    }
  }

  lemma AfterNoPairs(rest: Result<seq<Pair>, ParamError>)
    ensures AfterPairs([], rest) == rest
  {
    if rest.Success? {
      assert [] + rest.value == rest.value;
    }
  }

  lemma AfterPairsAppend(p: seq<Pair>, q: seq<Pair>, rest: Result<seq<Pair>, ParamError>)
    ensures AfterPairs(p, AfterPairs(q, rest)) == AfterPairs(p + q, rest)
  {
    if rest.Success? {
      assert p + (q + rest.value) == p + q + rest.value;
    }
  }

  /** One step of `DecodeEntries` from position `i` on. */
  lemma DecodeEntriesAt(entries: seq<string>, i: nat, parseDate: string -> Option<DateTime>)
    requires i < |entries|
    ensures DecodeEntries(entries[i..], parseDate) ==
      match DecodeEntry(entries[i], parseDate)
      case Failure(e) => Failure(e)
      case Success(None) => DecodeEntries(entries[i + 1..], parseDate)
      case Success(Some(pair)) => AfterPairs([pair], DecodeEntries(entries[i + 1..], parseDate))
  {
    assert entries[i..][0] == entries[i] && entries[i..][1..] == entries[i + 1..];
  }

  /** The imperative form of the decoding loop's body for one entry, as the
      statements of the loop run: drops the entry, converts it, or reports the
      error that ends the loop. `DecodeEntry` is its specification. */
  method ConvertEntry(entry: string, parseDate: string -> Option<DateTime>) returns (r: Result<Option<Pair>, ParamError>)
    ensures r == DecodeEntry(entry, parseDate)
  {
    var parts := Split(entry, ':');
    if |parts| != 2 {
      return Success(None);
    }
    var field := Lower(parts[0]);
    if field !in RuleFields {
      return Success(None);
    }
    if field == "until" {
      var date := parseDate(parts[1]);
      if date.None? {
        return Failure(InvalidDateFormat(parts[1]));
      }
      r := Success(Some(("until", Until(date.value))));
    } else if field == "byday" || field == "byweekday" {
      var days := ParseWeekdays(Split(parts[1], ','));
      if days.Failure? {
        return Failure(days.error);
      }
      r := Success(Some(("byweekday", Weekdays(days.value))));
    } else {
      var ns := ParseInts(Split(parts[1], ','));
      if ns.Failure? {
        return Failure(ns.error);
      }
      r := Success(Some((field, Ints(ns.value))));
    }
  }
}
